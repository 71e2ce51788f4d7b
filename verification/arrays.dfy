/**
 * The homogeneous dynamic array `typeless::Array`. The helper pointer is the
 * element type (`ty`), and the buffer `[arr_, end_)` is `buf`: `None` when
 * `arr_` is null, else the live elements in order. Raw storage, placement
 * construction and pointer arithmetic are replaced by sequence indices. A
 * zero-length allocation is taken to return a non-null pointer (as the
 * libstdc++ and libc++ allocators do), so a typed array built from no
 * elements owns an empty buffer. Releasing the null buffer of a typed array
 * (in `resize` or `destroy`) calls `deallocate(nullptr, 0)`, which is taken
 * to do nothing, as those allocators do.
 */
module Arrays {
  import opened Wrappers
  import opened Values
  import Objects

  datatype Array = Array(ty: Option<Ty>, buf: Option<seq<Val>>)

  predicate AllOfType(t: Ty, s: seq<Val>) {
    forall i | 0 <= i < |s| :: TypeOf(s[i]) == t
  }

  /** No buffer without a helper, and every element has the helper's type. */
  predicate Valid(a: Array) {
    && (a.ty.None? ==> a.buf.None?)
    && (a.buf.Some? ==> AllOfType(a.ty.value, a.buf.value))
  }

  /** `Array()`: null helper, null buffer. */
  const Untyped: Array := Array(None, None)

  /** The elements of `[arr_, end_)`; a null buffer has none. */
  function Elems(a: Array): seq<Val> {
    if a.buf.Some? then a.buf.value else []
  }

  /** `empty()`: the buffer pointer is null. */
  predicate IsEmpty(a: Array)
    ensures IsEmpty(a) ==> Elems(a) == []
  {
    a.buf.None?
  }

  /** `size()`: `distance(end_, arr_)` through the helper, which must be present. */
  function Size(a: Array): (n: nat)
    requires a.ty.Some?
    ensures IsEmpty(a) ==> n == 0
    ensures n == 0 <==> Elems(a) == []
  {
    |Elems(a)|
  }

  function Min(x: nat, y: nat): nat {
    if x < y then x else y
  }

  /**
   * `type()`: the helper's element type, or `nullptr_t` without a helper. An
   * untyped array has no elements, and every element of a typed one has the
   * reported type.
   */
  function Type(a: Array): (id: Objects.TypeId)
    ensures id == Objects.NullptrType <==> a.ty.None?
    ensures Valid(a) && id == Objects.NullptrType ==> IsEmpty(a)
    ensures Valid(a) ==> forall i | 0 <= i < |Elems(a)| :: id == Objects.TypeIdOf(TypeOf(Elems(a)[i]))
  {
    if a.ty.None? then Objects.NullptrType else Objects.TypeIdOf(a.ty.value)
  }

  /** `type_name()`: the name of `type()`, with "null" standing for `nullptr_t`. */
  function TypeName(a: Array, typeName: Ty -> string): (name: string)
    ensures Type(a) == Objects.NullptrType ==> name == "null"
    ensures Type(a).TypeIdOf? ==> name == typeName(Type(a).t)
  {
    if a.ty.None? then "null" else typeName(a.ty.value)
  }

  /** A default-constructed array is empty, typed `nullptr_t` and named "null". */
  lemma UntypedDescriptions(typeName: Ty -> string)
    ensures Valid(Untyped) && IsEmpty(Untyped) && Elems(Untyped) == []
    ensures Type(Untyped) == Objects.NullptrType && TypeName(Untyped, typeName) == "null"
  {
  }

  /** Swapping a string array with an `int` array and then with an untyped one, as the swap test does. */
  lemma SwapExample()
    ensures var strs, ints := FromList(TStr, [VStr("foo"), VStr("bar")]), FromList(TInt, [VInt(1), VInt(2), VInt(3)]);
      var (s, i) := Swap(strs, ints);
      && At(i, TStr, 1) == VStr("bar") && At(s, TInt, 2) == VInt(3)
      && var (s2, e) := Swap(s, Untyped);
      IsEmpty(s2) && !IsEmpty(e) && Type(e) == Objects.TypeIdOf(TInt)
  {
  }

  /** `Array(ArrayInit<T>)`: a buffer holding exactly the listed elements. */
  function FromList(t: Ty, xs: seq<Val>): (a: Array)
    requires AllOfType(t, xs)
    ensures Valid(a) && !IsEmpty(a) && Type(a) == Objects.TypeIdOf(t)
    ensures Size(a) == |xs| && forall i | 0 <= i < |xs| :: At(a, t, i) == xs[i]
  {
    Array(Some(t), Some(xs))
  }

  /** `Array(first, last)`: copy-construct `last - first` elements one by one. */
  method FromRange(t: Ty, src: seq<Val>, first: nat, last: nat) returns (a: Array)
    requires first <= last <= |src| && AllOfType(t, src)
    ensures Valid(a) && !IsEmpty(a) && a.ty == Some(t)
    ensures Size(a) == last - first
    ensures forall i | 0 <= i < last - first :: At(a, t, i) == src[first + i]
  {
    var n := last - first;
    var out: seq<Val> := [];
    var i := first;
    while n > 0
      invariant first <= i <= last && n == last - i
      invariant |out| == i - first
      invariant forall k | 0 <= k < |out| :: out[k] == src[first + k]
    {
      out := out + [src[i]];
      i := i + 1;
      n := n - 1;
    }
    a := Array(Some(t), Some(out));
  }

  /**
   * `Array(const Array&)`: with a helper, a fresh buffer of the same size
   * (a zero-length one if the source had none); without, the null pair.
   */
  function Copy(a: Array): (c: Array)
    requires Valid(a)
    ensures Valid(c) && c.ty == a.ty && Elems(c) == Elems(a)
    ensures c.ty.Some? <==> !IsEmpty(c)
  {
    if a.ty.None? then Untyped else Array(a.ty, Some(Elems(a)))
  }

  /**
   * `operator=(const Array&)`; `aliased` says both operands are the same
   * array. Assigning an untyped array over one that owns a buffer would leave
   * the released buffer pointers behind, so that case is excluded.
   */
  function CopyAssign(dst: Array, src: Array, aliased: bool): (r: Array)
    requires Valid(dst) && Valid(src)
    requires aliased ==> dst == src
    requires aliased || src.ty.Some? || dst.buf.None?
    ensures Valid(r) && r.ty == src.ty && Elems(r) == Elems(src)
    ensures !aliased ==> (r.ty.Some? <==> !IsEmpty(r))
    ensures aliased ==> r == dst
  {
    if aliased then dst
    else if src.ty.Some? then Copy(src)
    else Untyped
  }

  /** `Array(Array&&)`: take over helper and buffer; the source becomes untyped. */
  function MoveConstruct(src: Array): (r: (Array, Array))
    ensures r.0 == src && r.1 == Untyped
  {
    (src, Untyped)
  }

  /** `operator=(Array&&)`: on a self-move the buffer is released and the array ends untyped. */
  function MoveAssign(dst: Array, src: Array, aliased: bool): (r: (Array, Array))
    requires aliased ==> dst == src
    ensures r.1 == Untyped
    ensures !aliased ==> r.0 == src
    ensures aliased ==> r.0 == Untyped
  {
    if aliased then (Untyped, Untyped) else (src, Untyped)
  }

  /** `swap`, which is `std::swap`: a move-construction and two move-assignments. */
  function Swap(a: Array, b: Array): (r: (Array, Array))
    ensures r == (b, a)
  {
    var (tmp, a1) := MoveConstruct(a);
    var (a2, b1) := MoveAssign(a1, b, false);
    var (b2, _) := MoveAssign(b1, tmp, false);
    (a2, b2)
  }

  /** `at<T>(idx)`: the index must be in range and `T` the element type. */
  function At(a: Array, t: Ty, i: nat): (v: Val)
    requires Valid(a) && a.ty == Some(t) && i < Size(a)
    ensures TypeOf(v) == t
  {
    Elems(a)[i]
  }

  /**
   * `set(off, ele)`: destroy the element at `off` and copy-construct `ele` in
   * its place. This is the evident intent; as written the copy-construction
   * is handed an untyped pointer and the member template does not instantiate.
   * `e` is taken to be independent of the array; a reference to the replaced
   * element would be read after it is destroyed.
   */
  function SetAt(a: Array, i: nat, e: Val): (r: Array)
    requires Valid(a) && a.ty == Some(TypeOf(e)) && i < Size(a)
    ensures Valid(r) && r.ty == a.ty && Size(r) == Size(a)
    ensures At(r, TypeOf(e), i) == e
    ensures forall j | 0 <= j < Size(a) && j != i :: At(r, TypeOf(e), j) == At(a, TypeOf(e), j)
  {
    Array(a.ty, Some(Elems(a)[i := e]))
  }

  /**
   * `set_type<T>()`: release the contents and rebind the helper. The buffer
   * pointers are not reset, so only an array without a buffer can be retyped.
   */
  function SetType(a: Array, t: Ty): (r: Array)
    requires a.buf.None?
    ensures Valid(r) && r.ty == Some(t) && IsEmpty(r) && Size(r) == 0
  {
    Array(Some(t), None)
  }

  /** `construct(ptr, n)`: `n` copies of a value-initialised `T`. */
  function Defaults(t: Ty, n: nat): (s: seq<Val>)
    ensures |s| == n
    ensures forall i | 0 <= i < n :: s[i] == Default(t)
  {
    if n == 0 then [] else Defaults(t, n - 1) + [Default(t)]
  }

  /**
   * `make_copy(src, size, n)`: a buffer of `size` slots whose first `n` are
   * copied from `src` and whose rest are value-initialised.
   */
  function MakeCopy(t: Ty, src: seq<Val>, size: nat, n: nat): (s: seq<Val>)
    requires n <= size && n <= |src|
    ensures |s| == size
    ensures forall i | 0 <= i < n :: s[i] == src[i]
    ensures forall i | n <= i < size :: s[i] == Default(t)
  {
    if n == 0 then Defaults(t, size) else [src[0]] + MakeCopy(t, src[1..], size - 1, n - 1)
  }

  /** `construct(advance(arr_, from), k)`: value-initialise `k` slots starting at `from`. */
  function ConstructAt(s: seq<Val>, t: Ty, from: nat, k: nat): (r: seq<Val>)
    requires from + k <= |s|
    ensures |r| == |s|
    ensures forall i | 0 <= i < |s| :: r[i] == if from <= i < from + k then Default(t) else s[i]
  {
    s[..from] + Defaults(t, k) + s[from + k..]
  }

  /**
   * `resize(new_size)`: nothing without a helper; otherwise a new buffer
   * from `make_copy(arr_, n, min(old, n))`, whose slots past the old size are
   * then value-initialised once more by `construct`.
   */
  function Resize(a: Array, n: nat): (r: Array)
    requires Valid(a)
    ensures Valid(r)
    ensures a.ty.None? ==> r == a
    ensures a.ty.Some? ==> r.ty == a.ty && !IsEmpty(r) && Size(r) == n
    ensures a.ty.Some? ==> forall i | 0 <= i < n ::
      Elems(r)[i] == if i < Size(a) then Elems(a)[i] else Default(a.ty.value)
  {
    if a.ty.None? then a
    else
      var t, oldSize := a.ty.value, Size(a);
      var copied := MakeCopy(t, Elems(a), n, Min(oldSize, n));
      var s := if n > oldSize then ConstructAt(copied, t, oldSize, n - oldSize) else copied;
      Array(a.ty, Some(s))
  }

  /** Retyping a buffer-less array and then resizing it gives `n` value-initialised elements of the new type. */
  lemma SetTypeThenResize(a: Array, t: Ty, n: nat)
    requires a.buf.None?
    ensures var r := Resize(SetType(a, t), n);
      Type(r) == Objects.TypeIdOf(t) && Elems(r) == Defaults(t, n)
  {
    assert Elems(Resize(SetType(a, t), n)) == Defaults(t, n);
  }

  /** Resizing to the current size yields a copy. */
  lemma ResizeSameSize(a: Array)
    requires Valid(a) && a.ty.Some?
    ensures Resize(a, Size(a)) == Copy(a)
  {
    assert Elems(Resize(a, Size(a))) == Elems(a);
  }

  /** A shrink after any resize to at least that size is the same as resizing directly. */
  lemma ResizeTwice(a: Array, m: nat, n: nat)
    requires Valid(a) && n <= m
    ensures Resize(Resize(a, m), n) == Resize(a, n)
  {
    if a.ty.Some? {
      assert Elems(Resize(Resize(a, m), n)) == Elems(Resize(a, n));
    }
  }

  /** Growing and then shrinking back to the old size restores the contents. */
  lemma ResizeRoundTrip(a: Array, m: nat)
    requires Valid(a) && a.ty.Some? && m >= Size(a)
    ensures Resize(Resize(a, m), Size(a)) == Copy(a)
  {
    ResizeTwice(a, m, Size(a));
    ResizeSameSize(a);
  }

  /** The elements `filter` keeps, in their original order. */
  function Kept(p: Val -> bool, s: seq<Val>): (k: seq<Val>)
    ensures |k| <= |s|
    ensures forall i | 0 <= i < |k| :: p(k[i]) && k[i] in s
  {
    if s == [] then []
    else
      var init, last := s[..|s| - 1], s[|s| - 1];
      assert s == init + [last];
      Kept(p, init) + if p(last) then [last] else []
  }

  /** Filtering only drops elements: the kept ones form a sub-multiset of the input. */
  lemma {:induction false} KeptSubMultiset(p: Val -> bool, s: seq<Val>)
    ensures multiset(Kept(p, s)) <= multiset(s)
  {
    if s != [] {
      var init, last := s[..|s| - 1], s[|s| - 1];
      assert s == init + [last];
      KeptSubMultiset(p, init);
    }
  }

  /** Filtering keeps every copy of an accepted value and no copy of a rejected one. */
  lemma {:induction false} KeptCount(p: Val -> bool, s: seq<Val>, x: Val)
    ensures multiset(Kept(p, s))[x] == if p(x) then multiset(s)[x] else 0
  {
    if s != [] {
      var init, last := s[..|s| - 1], s[|s| - 1];
      assert s == init + [last];
      KeptCount(p, init, x);
    }
  }

  /** An element passes the filter exactly when it occurs in the input and satisfies the predicate. */
  lemma {:induction false} KeptMembership(p: Val -> bool, s: seq<Val>, x: Val)
    ensures x in Kept(p, s) <==> x in s && p(x)
  {
    if s != [] {
      var init, last := s[..|s| - 1], s[|s| - 1];
      assert s == init + [last];
      KeptMembership(p, init, x);
    }
  }

  /**
   * `filter(fn)`: without a buffer, a copy of the array; otherwise a buffer of
   * the same length holding the accepted elements in order, padded with
   * value-initialised elements. The predicate is taken to leave the element
   * unchanged and not to throw.
   */
  function Filter(a: Array, p: Val -> bool): (r: Array)
    requires Valid(a)
    ensures Valid(r) && r.ty == a.ty
    ensures IsEmpty(a) ==> r == Copy(a)
    ensures !IsEmpty(a) ==> !IsEmpty(r) && |Elems(r)| == |Elems(a)|
    ensures !IsEmpty(a) ==> var k := Kept(p, Elems(a));
      Elems(r)[..|k|] == k && forall i | |k| <= i < |Elems(r)| :: Elems(r)[i] == Default(a.ty.value)
  {
    if a.buf.None? then Copy(a)
    else
      var s := Elems(a);
      var k := Kept(p, s);
      assert AllOfType(a.ty.value, k);
      Array(a.ty, Some(k + Defaults(a.ty.value, |s| - |k|)))
  }

  /** One more input element extends the kept elements by at most that element. */
  lemma KeptStep(p: Val -> bool, s: seq<Val>, i: nat)
    requires i < |s|
    ensures Kept(p, s[..i + 1]) == Kept(p, s[..i]) + if p(s[i]) then [s[i]] else []
  {
    assert s[..i + 1][..i] == s[..i];
  }

  /** The loop of `filter` as written: copy accepted elements forward, then pad the tail. */
  method FilterLoop(a: Array, p: Val -> bool) returns (r: Array)
    requires Valid(a)
    ensures r == Filter(a, p)
  {
    if a.buf.None? {
      return Copy(a);
    }
    var s, t := a.buf.value, a.ty.value;
    var n := |s|;
    var out: seq<Val> := [];
    var i := 0;
    while i < n
      invariant 0 <= i <= n
      invariant out == Kept(p, s[..i])
    {
      KeptStep(p, s, i);
      if p(s[i]) {
        out := out + [s[i]];
      }
      i := i + 1;
    }
    assert s[..n] == s;
    var filled := out;
    while |filled| < n
      invariant |out| <= |filled| <= n
      invariant filled == out + Defaults(t, |filled| - |out|)
    {
      filled := filled + [Default(t)];
    }
    r := Array(a.ty, Some(filled));
  }

  /** Left-to-right fold: `cb` is applied to each element and the running result. */
  function Fold<R>(s: seq<Val>, cb: (Val, R) -> R, init: R): (r: R)
    ensures s == [] ==> r == init
  {
    if s == [] then init else cb(s[|s| - 1], Fold(s[..|s| - 1], cb, init))
  }

  /** Folding a concatenation folds the second part from the first part's result. */
  lemma {:induction false} FoldAppend<R>(s1: seq<Val>, s2: seq<Val>, cb: (Val, R) -> R, init: R)
    ensures Fold(s1 + s2, cb, init) == Fold(s2, cb, Fold(s1, cb, init))
    decreases |s2|
  {
    if s2 == [] {
      assert s1 + s2 == s1;
    } else {
      var init2, last := s2[..|s2| - 1], s2[|s2| - 1];
      assert (s1 + s2)[..|s1 + s2| - 1] == s1 + init2;
      FoldAppend(s1, init2, cb, init);
    }
  }

  /**
   * `for_each<T>(cb)`: visit every element in index order; the callback's
   * effect is a state, and it is taken to leave the elements unchanged.
   */
  method ForEach<S>(a: Array, visit: (Val, S) -> S, s0: S) returns (s: S)
    ensures s == Fold(Elems(a), visit, s0)
  {
    if a.buf.None? {
      return s0;
    }
    var xs := a.buf.value;
    s := s0;
    var i := 0;
    while i < |xs|
      invariant 0 <= i <= |xs|
      invariant s == Fold(xs[..i], visit, s0)
    {
      assert xs[..i + 1][..i] == xs[..i];
      s := visit(xs[i], s);
      i := i + 1;
    }
    assert xs[..|xs|] == xs;
  }

  /** `join<T, R>(cb)`: fold the elements into a value-initialised `R` (`dflt`). */
  function Join<R>(a: Array, cb: (Val, R) -> R, dflt: R): (r: R)
    ensures IsEmpty(a) ==> r == dflt
    ensures Elems(a) == [] ==> r == dflt
  {
    if a.buf.None? then dflt else Fold(Elems(a), cb, dflt)
  }

  /**
   * One more element at the end of the buffer applies the callback once more,
   * to that element and the result for the shorter buffer; with the empty
   * case above this pins `join` down as the left-to-right fold.
   */
  lemma JoinSnoc<R>(ty: Option<Ty>, xs: seq<Val>, x: Val, cb: (Val, R) -> R, dflt: R)
    ensures Join(Array(ty, Some(xs + [x])), cb, dflt) == cb(x, Join(Array(ty, Some(xs)), cb, dflt))
  {
    FoldSnoc(xs, x, cb, dflt);
  }

  /** The loop of `join` as written: apply the callback to each element in turn. */
  method JoinLoop<R>(a: Array, cb: (Val, R) -> R, dflt: R) returns (r: R)
    ensures r == Join(a, cb, dflt)
  {
    if a.buf.None? {
      return dflt;
    }
    var xs := a.buf.value;
    r := dflt;
    var i := 0;
    while i < |xs|
      invariant 0 <= i <= |xs|
      invariant r == Join(Array(a.ty, Some(xs[..i])), cb, dflt)
    {
      assert xs[..i + 1] == xs[..i] + [xs[i]];
      JoinSnoc(a.ty, xs[..i], xs[i], cb, dflt);
      r := cb(xs[i], r);
      i := i + 1;
    }
    assert xs[..|xs|] == xs;
  }

  /**
   * `default_join` with an `int` result: `r += v`, with `bool` and `char`
   * promoted. A string or opaque element does not compile with an `int`
   * result; the model leaves the result unchanged for it.
   */
  function AddInto(v: Val, r: int): (r': int)
    ensures IsArith(TypeOf(v)) ==> r' - r == Numeric(v)
    ensures !IsArith(TypeOf(v)) ==> r' == r
  {
    if IsArith(TypeOf(v)) then r + Numeric(v) else r
  }

  /**
   * `default_join` with a `std::string` result: `r += v` appends a string or
   * a `char` element. An opaque element does not compile, and an `int` or
   * `bool` would be narrowed to one `char`; the model leaves the result
   * unchanged for those.
   */
  function AppendInto(v: Val, r: string): (r': string)
    ensures v.VStr? ==> |r'| == |r| + |v.s| && r'[..|r|] == r && r'[|r|..] == v.s
    ensures v.VChar? ==> |r'| == |r| + 1 && r'[..|r|] == r && r'[|r|] == v.c
    ensures !v.VStr? && !v.VChar? ==> r' == r
  {
    match v
    case VStr(s) => r + s
    case VChar(c) => r + [c]
    case _ => r
  }

  /** Value-initialised padding adds nothing to a sum. */
  lemma {:induction false} SumOfDefaults(t: Ty, n: nat, init: int)
    requires IsArith(t)
    ensures Fold(Defaults(t, n), AddInto, init) == init
  {
    if n > 0 {
      SumOfDefaults(t, n - 1, init);
      FoldSnoc(Defaults(t, n - 1), Default(t), AddInto, init);
    }
  }

  /** Value-initialised `std::string` padding adds nothing to a concatenation. */
  lemma {:induction false} AppendOfDefaults(n: nat, init: string)
    ensures Fold(Defaults(TStr, n), AppendInto, init) == init
  {
    if n > 0 {
      AppendOfDefaults(n - 1, init);
      FoldSnoc(Defaults(TStr, n - 1), Default(TStr), AppendInto, init);
      assert init + [] == init;
    }
  }

  /** `n` NUL characters. */
  function Nuls(n: nat): (s: string)
    ensures |s| == n && forall i | 0 <= i < n :: s[i] == '\0'
  {
    if n == 0 then [] else Nuls(n - 1) + ['\0']
  }

  /** Value-initialised `char` padding appends one NUL per element. */
  lemma {:induction false} AppendOfNuls(n: nat, init: string)
    ensures Fold(Defaults(TChar, n), AppendInto, init) == init + Nuls(n)
  {
    if n > 0 {
      AppendOfNuls(n - 1, init);
      FoldSnoc(Defaults(TChar, n - 1), Default(TChar), AppendInto, init);
      assert (init + Nuls(n - 1)) + ['\0'] == init + Nuls(n);
    }
  }

  /** Summing a filtered array sums exactly the accepted elements. */
  lemma FilterThenSum(a: Array, p: Val -> bool)
    requires Valid(a) && a.ty.Some? && IsArith(a.ty.value)
    ensures Join(Filter(a, p), AddInto, 0) == Fold(Kept(p, Elems(a)), AddInto, 0)
  {
    var t := a.ty.value;
    if a.buf.Some? {
      var k := Kept(p, Elems(a));
      var pad := Defaults(t, |Elems(a)| - |k|);
      assert Elems(Filter(a, p)) == k + pad;
      FoldAppend(k, pad, AddInto, 0);
      SumOfDefaults(t, |pad|, Fold(k, AddInto, 0));
    }
  }

  /** Concatenating a filtered array of strings concatenates exactly the accepted strings. */
  lemma FilterThenConcat(a: Array, p: Val -> bool)
    requires Valid(a) && a.ty == Some(TStr)
    ensures Join(Filter(a, p), AppendInto, []) == Fold(Kept(p, Elems(a)), AppendInto, [])
  {
    if a.buf.Some? {
      var k := Kept(p, Elems(a));
      var pad := Defaults(TStr, |Elems(a)| - |k|);
      assert Elems(Filter(a, p)) == k + pad;
      FoldAppend(k, pad, AppendInto, []);
      AppendOfDefaults(|pad|, Fold(k, AppendInto, []));
    }
  }

  const OneToNine: seq<Val> := [VInt(1), VInt(2), VInt(3), VInt(4), VInt(5), VInt(6), VInt(7), VInt(8), VInt(9)]

  /** `i % 3 == 0` on an `int` element (for these operands C++ and Dafny `%` agree). */
  function DivisibleBy3(v: Val): bool {
    v.VInt? && v.i % 3 == 0
  }

  /** Folding one more element applies the callback once more. */
  lemma FoldSnoc<R>(s: seq<Val>, x: Val, cb: (Val, R) -> R, init: R)
    ensures Fold(s + [x], cb, init) == cb(x, Fold(s, cb, init))
  {
    assert (s + [x])[..|s|] == s;
  }

  /** The multiples of three among 1, ..., k, in order. */
  function MultiplesOf3(k: nat): seq<Val>
    requires k <= 9
  {
    if k == 0 then [] else MultiplesOf3(k - 1) + if k % 3 == 0 then [VInt(k)] else []
  }

  lemma {:induction false} KeptPrefixExample(k: nat)
    requires k <= 9
    ensures Kept(DivisibleBy3, OneToNine[..k]) == MultiplesOf3(k)
  {
    if k == 0 {
      assert OneToNine[..0] == [];
    } else {
      KeptPrefixExample(k - 1);
      KeptStep(DivisibleBy3, OneToNine, k - 1);
      assert OneToNine[k - 1] == VInt(k);
    }
  }

  /** `Array{1, ..., 9}.filter(i % 3 == 0).join()` is 18. */
  lemma FilterExample()
    ensures Join(Filter(FromList(TInt, OneToNine), DivisibleBy3), AddInto, 0) == 18
  {
    var a := FromList(TInt, OneToNine);
    var k := [VInt(3), VInt(6), VInt(9)];
    assert Kept(DivisibleBy3, Elems(a)) == k by {
      KeptPrefixExample(9);
      assert OneToNine[..9] == OneToNine;
      assert MultiplesOf3(3) == [VInt(3)];
      assert MultiplesOf3(6) == [VInt(3), VInt(6)];
    }
    assert Fold(k, AddInto, 0) == 18 by {
      FoldSnoc([], VInt(3), AddInto, 0);
      FoldSnoc([VInt(3)], VInt(6), AddInto, 0);
      FoldSnoc([VInt(3), VInt(6)], VInt(9), AddInto, 0);
    }
    FilterThenSum(a, DivisibleBy3);
  }

  /** `Array{1, 2, 3}.resize(5)` keeps 1, 2, 3 and appends two zeros. */
  lemma ResizeGrowExample()
    ensures Elems(Resize(FromList(TInt, [VInt(1), VInt(2), VInt(3)]), 5)) == [VInt(1), VInt(2), VInt(3), VInt(0), VInt(0)]
  {
  }

  /** `Array{"Hello", " ", "World", "!"}.resize(2)` joins to "Hello ". */
  lemma ResizeShrinkExample()
    ensures var r := Resize(FromList(TStr, [VStr("Hello"), VStr(" "), VStr("World"), VStr("!")]), 2);
      Size(r) == 2 && Join(r, AppendInto, []) == "Hello "
  {
    var r := Resize(FromList(TStr, [VStr("Hello"), VStr(" "), VStr("World"), VStr("!")]), 2);
    assert Elems(r) == [VStr("Hello")] + [VStr(" ")];
    FoldSnoc([], VStr("Hello"), AppendInto, []);
    FoldSnoc([VStr("Hello")], VStr(" "), AppendInto, []);
  }

  /** The `char` elements spelling `cs`. */
  function Chars(cs: ByteString): (s: seq<Val>)
    ensures |s| == |cs| && AllOfType(TChar, s)
    ensures forall i | 0 <= i < |cs| :: s[i] == VChar(cs[i])
  {
    seq(|cs|, i requires 0 <= i < |cs| => VChar(cs[i]))
  }

  /** Joining an array of `char` into a `std::string` spells out its characters. */
  lemma {:induction false} JoinChars(cs: ByteString)
    ensures Join(FromList(TChar, Chars(cs)), AppendInto, []) == cs
    decreases |cs|
  {
    if cs != [] {
      var init := cs[..|cs| - 1];
      JoinChars(init);
      assert Chars(cs) == Chars(init) + [VChar(cs[|cs| - 1])];
      FoldSnoc(Chars(init), VChar(cs[|cs| - 1]), AppendInto, []);
      assert cs == init + [cs[|cs| - 1]];
    }
  }

  /** `Array{'f', 'o', 'o', ' ', 'b', 'a', 'r'}.join<char, string>()` is "foo bar". */
  lemma JoinCharsExample()
    ensures var s := [VChar('f'), VChar('o'), VChar('o'), VChar(' '), VChar('b'), VChar('a'), VChar('r')];
      Join(FromList(TChar, s), AppendInto, []) == "foo bar"
  {
    var cs: ByteString := "foo bar";
    JoinChars(cs);
    assert Chars(cs) == [VChar('f'), VChar('o'), VChar('o'), VChar(' '), VChar('b'), VChar('a'), VChar('r')];
  }
}
