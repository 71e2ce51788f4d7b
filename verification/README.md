# Typeless in Dafny

A model of the two type-erased containers of the header-only C++ library
Typeless (`include/typeless.h`):

- `typeless::Object`, a box holding one value of any copyable type, and
- `typeless::Array`, a homogeneous dynamic array whose element type is chosen
  at run time,

together with the per-type behaviour table of `Object` (`TypedObjectHelper<T>`).
`Array` dispatches to a separate helper (`TypedArrayHelper<T>`) that handles
only allocation, construction, copying and the type, with no equality,
ordering or arithmetic. The `Object` table is decided by two compile-time facts about the element
type: whether `T == T` is well formed (native equality, otherwise constantly
`false`) and whether `T` is arithmetic (native ordering and arithmetic,
otherwise every such call throws).

The concrete types form a closed universe (`Values.Ty`): 32-bit `int`, a
one-byte signed `char`, `bool`, `std::string`, and an opaque class with neither
`operator==` nor arithmetic. A box is `Empty` (null helper) or `Holds(v)`; an
array is an optional element type (the helper) plus an optional buffer
(`arr_`, null or the live elements). A thrown `std::runtime_error` becomes an
`Err` result. The implementation-defined `type_info::name()` string is a
parameter `typeName: Ty -> string`.

Files, one module each:

- `wrappers.dfy` — `Option` and `Result`.
- `values.dfy` — types, values, value-initialisation, integral promotion, and
  C++ division (truncating toward zero, unlike Dafny's Euclidean `/`).
- `behavior.dfy` — the behaviour table: `equal`, `less`, `sum`, `difference`,
  `product`, `quotient`.
- `stringizer.dfy` — `stringizer::to_string`, including `std::to_string` on
  `int` with a parser that proves it lossless.
- `objects.dfy` — `Object`: construction, copy, move, swap, `set`, `get`,
  `to_string`, `type`, and the eleven operators.
- `arrays.dfy` — `Array`: construction, copy, move, swap, `at`, `set`,
  `set_type`, `resize`, `filter`, `for_each`, `join`, and the helper's
  `make_copy` and `construct`.

Undefined behaviour in the header is excluded by preconditions rather than
modelled, except for the cases named under "Left out": `Object::set` and
`Array::set` from a reference into the container itself, an `int` result of
`join` that overflows, and callbacks of `for_each` and `filter` that modify
the element they are handed or throw. Arithmetic requires a non-zero divisor and
an in-range `int` result. Ordering and arithmetic are excluded on two empty
boxes, whose types agree (`nullptr_t`) so the null helper would be
dereferenced. `size()` requires a typed array.

A zero-length allocation is taken to return a non-null pointer, as the
standard allocators of libstdc++ and libc++ do. A typed array built from zero
elements therefore owns an (empty) buffer and is not `empty()`. Releasing the
null buffer of a typed array, which `resize` and `destroy` do through
`destroy_deallocate`, calls `deallocate(nullptr, 0)`. The standard allocator
requirements do not allow that pointer, but libstdc++ and libc++ accept it as
a no-op, and the model takes it to be one.

`std::string` values are byte strings (`seq<CChar>`, every character below
256), like `char`.

## Model

| member | source | states |
|---|---|---|
| Values.Default | include/typeless.h:733-741 | `T{}` has type `T`; for an arithmetic type it promotes to 0, and for `std::string` it is empty |
| Values.Numeric | include/typeless.h:686-701 | integral promotion: an `int` stays itself, a `char` becomes its signed byte value, a `bool` becomes 1 exactly when true, and the result is always an in-range `int` |
| Values.SignedChar | include/typeless.h:686-689 | a `char` byte promotes to the signed value in [-128, 128) that is congruent to it modulo 256 |
| Values.NumericInjective | include/typeless.h:689 | integral promotion loses nothing: two values of one arithmetic type are equal exactly when their promoted `int`s are |
| Values.TruncDiv | include/typeless.h:699-701 | `/` on `int` leaves a remainder smaller in magnitude than the divisor that is zero or has the dividend's sign |
| Values.TruncDivUnique | include/typeless.h:699-701 | exactly one quotient has that remainder property, so it determines C++ `/` |
| Values.TruncDivBound | include/typeless.h:699-701 | the quotient is never larger in magnitude than the dividend |
| Values.TruncDivExamples | test/internal/internal_test.cpp:70-79 | 100/200 = 0 and 200/100 = 2 as in this helper test, 456/123 = 3 as in the object test (test/object_test.h:100), and -7/2 = -3 where Euclidean division gives -4 |
| Behavior.Equal | include/typeless.h:704-718 | the table's `equal` holds exactly when the type has `operator==` and the two values are equal |
| Behavior.EqualReflexiveIffHasEq | include/typeless.h:654 | a value of a type without `operator==` is not equal even to itself |
| Behavior.NativeLess | include/typeless.h:689 | the native `<` of two values of one arithmetic type agrees with `<` on their promoted values (for `bool`, `false < true` only) |
| Behavior.Native | include/typeless.h:690-701 | the native operator on promoted operands: the sum minus the right operand is the left, the difference plus the right operand is the left, a product is `x * y`, zero exactly when a factor is and otherwise at least the other factor in magnitude, and `/` truncates |
| Behavior.Less | include/typeless.h:664-689 | `less` throws the non-arithmetic error exactly for non-arithmetic types, and otherwise compares the promoted values |
| Behavior.Arith | include/typeless.h:683-701 | `sum`, `difference`, `product`, `quotient` throw exactly for non-arithmetic types; otherwise they return an `int` box whose value inverts the operation (sum minus the right operand gives the left, and so on), with `/` truncating |
| Stringizer.NatDigits | include/typeless.h:38 | `std::to_string` of a natural number is a non-empty string of decimal digits with no leading zero |
| Stringizer.ParseNatDigits | include/typeless.h:38 | reading those digits back gives the number |
| Stringizer.IntToString | include/typeless.h:38 | the rendering of an `int` starts with '-' exactly when the number is negative |
| Stringizer.IntToStringRoundTrip | include/typeless.h:38 | parsing the rendering of any `int` gives the `int` back |
| Stringizer.ToString | include/typeless.h:601-610 | an `int` is rendered losslessly, a `char` as the one-character string, a string as itself, and any other type as its type name |
| Stringizer.IntToStringExamples | test/object_test.h:120-122 | 123456789 renders as "123456789" and -333 as "-333" |
| Stringizer.ToStringExamples | test/object_test.h:120-133 | the boxed `int`, `std::string` and `char` of the to_string test render as the test expects |
| Objects.IsEmpty | include/typeless.h:346 | a box is `empty()` exactly when its `type()` is `nullptr_t` |
| Objects.Type | include/typeless.h:376-381 | `type()` names a type exactly when the box holds a value, and then it is the held value's type |
| Objects.TypeName | include/typeless.h:383-388 | `type_name()` is the name of `type()`: "void" for `nullptr_t`, else the implementation's name for the held type |
| Objects.HasType | include/typeless.h:371-374 | `has_type<T>()` holds exactly when the box is non-empty and holds a `T` |
| Objects.Get | include/typeless.h:325-333 | `get<T>()` on a box whose type is `T` yields a `T` |
| Objects.Construct | include/typeless.h:216-220 | `Object(v)` is non-empty, has `v`'s type, and `get` returns `v` |
| Objects.ConstructRoundTrip | include/typeless.h:216-220 | boxing a value gives a non-empty box of the value's type from which `get` returns the value |
| Objects.Set | include/typeless.h:335-342 | after `set(v)` the box has `v`'s type and holds `v`, whatever it held before |
| Objects.Copy | include/typeless.h:221-225 | a copy (and `clone()`) has the same type and emptiness, and holds the same value |
| Objects.CopyIsEqual | include/typeless.h:221-225 | a copy has the same type and value, and compares equal to the original exactly when the type has `operator==` |
| Objects.CopyAssign | include/typeless.h:230-240 | copy-assignment gives the source's type, its value, and its emptiness; self-assignment changes nothing |
| Objects.MoveConstruct | include/typeless.h:226-228 | the new box takes the source's value and the source becomes empty |
| Objects.MoveAssign | include/typeless.h:242-247 | the destination takes the source's value and the source becomes empty; a self-move leaves the box empty |
| Objects.Swap | include/typeless.h:362 | `swap` exchanges the two boxes, empty ones included |
| Objects.SwapExample | test/object_test.h:75-90 | the swap test's string, `int` and empty boxes end where the test expects |
| Objects.EmptyBoxDescriptions | include/typeless.h:346-388 | an empty box is empty, typed `nullptr_t`, named "void" and printed "null"; a boxed value is non-empty and its type is not `nullptr_t` (its name and rendering may still coincide, e.g. the string "null") |
| Objects.ToString | include/typeless.h:364-369 | `to_string()` is "null" for an empty box, a rendering of a boxed `int` that parses back to it, the string itself for a string, the one character for a `char`, and the type name otherwise |
| Objects.Eq | include/typeless.h:255-258 | two non-empty boxes are `==` exactly when they hold the same value and its type has `operator==` |
| Objects.Ne | include/typeless.h:260-263 | `l != r` on two non-empty boxes holds exactly when they hold different values or a type without `operator==` |
| Objects.EqValue | include/typeless.h:249-253 | `obj == v` holds exactly when the box holds `v` |
| Objects.NeValue | include/typeless.h:260-263 | `obj != v` holds exactly when the box does not hold `v` |
| Objects.Lt | include/typeless.h:265-270 | `<` is false on a type mismatch, throws on a non-arithmetic type, and otherwise compares the promoted values |
| Objects.Gt | include/typeless.h:272-277 | `>` as written is false on a type mismatch, throws on a non-arithmetic type, and otherwise is "greater or equal" on the promoted values |
| Objects.GtStrict | include/typeless.h:272-277 | the corrected `>` is strictly greater on the promoted values, with the same mismatch and error behaviour |
| Objects.Le | include/typeless.h:279-285 | `<=` is false on a mismatch, throws on a non-arithmetic type, and otherwise is "less or equal" |
| Objects.Ge | include/typeless.h:287-293 | `>=` is false on a mismatch, throws on a non-arithmetic type, and otherwise is "greater or equal" |
| Objects.Apply | include/typeless.h:295-321 | `+ - * /` give an empty box on a type mismatch, throw on a non-arithmetic type, and otherwise box the native `int` result |
| Objects.MismatchIsSilent | include/typeless.h:265-321 | on boxes of different types all four orderings are false, every arithmetic result is empty, and `==` is false |
| Objects.NonArithmeticThrows | include/typeless.h:659-672 | on two values of one non-arithmetic type, all four orderings and all four arithmetic operators throw the same error |
| Objects.GtTrueOnEqual | include/typeless.h:272-277 | `o > o` is true for any arithmetic box while `o < o` is false; the corrected `>` gives false |
| Objects.GtStrictIsConverseLess | include/typeless.h:265-277 | the corrected `l > r` is `r < l`, and it differs from `>` as written exactly on equal values |
| Objects.SumThenDifference | include/typeless.h:690-695 | adding an `int` box and subtracting it again gives the first box back |
| Objects.QuotientTruncates | include/typeless.h:699-701 | `/` on boxes is the truncating quotient of the promoted values |
| Objects.CharArithmeticPromotes | include/typeless.h:690-701 | arithmetic on two `char` boxes is always defined (divisor non-zero) and yields an `int` box |
| Objects.ArithmeticExamples | test/object_test.h:92-105 | the arithmetic test's results for 123 and 456: 579, -333, 56088, 3, the four orderings, `==` false and `!=` true |
| Arrays.UntypedDescriptions | include/typeless.h:579-591 | a default-constructed array is empty, has no elements, is typed `nullptr_t` and is named "null" |
| Arrays.Type | include/typeless.h:579-584 | `type()` is `nullptr_t` exactly for an untyped array, which then has no buffer; otherwise every element has the reported type |
| Arrays.TypeName | include/typeless.h:586-591 | `type_name()` is the name of `type()`: "null" for `nullptr_t`, else the implementation's name for the element type |
| Arrays.IsEmpty | include/typeless.h:541 | an array reported `empty()` has no elements |
| Arrays.Size | include/typeless.h:543-545 | `size()` of a typed array is zero when it has no buffer, and zero exactly when it has no elements |
| Arrays.FromList | include/typeless.h:395-401 | an initializer-list array is typed, owns a buffer, and holds exactly the listed elements in order |
| Arrays.FromRange | include/typeless.h:403-416 | an iterator-range array holds `last - first` elements, the i-th being `first[i]` |
| Arrays.Copy | include/typeless.h:418-424 | a copy has the same element type and elements, and a typed copy always owns a buffer (possibly of length zero) |
| Arrays.CopyAssign | include/typeless.h:428-440 | copy-assignment gives the source's element type and elements; self-assignment returns the array unchanged, buffer or none |
| Arrays.MoveConstruct | include/typeless.h:426 | the new array takes the source's type and buffer and the source becomes untyped |
| Arrays.MoveAssign | include/typeless.h:442-447 | the destination takes the source's type and buffer, the source becomes untyped, and a self-move leaves it untyped |
| Arrays.Swap | include/typeless.h:577 | `swap` exchanges the two arrays |
| Arrays.SwapExample | test/array_test.h:84-95 | the swap test's string, `int` and untyped arrays end where the test expects |
| Arrays.At | include/typeless.h:464-474 | `at<T>(i)` with `i` below the size returns an element of type `T` |
| Arrays.SetAt | include/typeless.h:476-482 | `set(i, e)` puts `e` at `i`, keeps the size, and leaves every other element unchanged |
| Arrays.SetType | include/typeless.h:484-488 | `set_type<T>()` on an array without a buffer gives an empty array of type `T` |
| Arrays.SetTypeThenResize | include/typeless.h:484-559 | after `set_type<T>()` on a buffer-less array, `resize(n)` gives an array of type `T` holding `n` copies of `T{}` |
| Arrays.Defaults | include/typeless.h:733-741 | `construct(ptr, n)` yields `n` copies of `T{}` |
| Arrays.MakeCopy | include/typeless.h:762-775 | `make_copy(src, size, n)` has `size` slots, the first `n` copied from the source and the rest `T{}` |
| Arrays.ConstructAt | include/typeless.h:555-558 | value-initialising `k` slots from `from` replaces exactly those slots with `T{}` |
| Arrays.Resize | include/typeless.h:547-559 | `resize(n)` leaves an untyped array alone; otherwise the size becomes `n`, the first min(old, n) elements are kept, and the rest are `T{}` |
| Arrays.ResizeSameSize | include/typeless.h:547-559 | resizing to the current size yields a copy |
| Arrays.ResizeTwice | include/typeless.h:547-559 | resizing to `m` and then down to `n <= m` equals resizing to `n` directly |
| Arrays.ResizeRoundTrip | include/typeless.h:547-559 | growing and shrinking back to the old size restores the array |
| Arrays.ResizeGrowExample | test/array_test.h:116-122 | `{1, 2, 3}` resized to 5 is `{1, 2, 3, 0, 0}` |
| Arrays.ResizeShrinkExample | test/array_test.h:130-135 | `{"Hello", " ", "World", "!"}` resized to 2 has size 2 and joins to "Hello " |
| Arrays.Kept | include/typeless.h:510-518 | the elements `filter` copies forward are no more than the input, all satisfy the predicate, and all occur in the input |
| Arrays.KeptSubMultiset | include/typeless.h:510-518 | filtering only drops elements: the kept ones are a sub-multiset of the input |
| Arrays.KeptCount | include/typeless.h:510-518 | filtering keeps every copy of an accepted value and no copy of a rejected one: the kept multiplicity of `x` is its input multiplicity if `p(x)`, else zero |
| Arrays.KeptMembership | include/typeless.h:510-518 | a value is kept exactly when it occurs in the input and satisfies the predicate |
| Arrays.Filter | include/typeless.h:500-527 | `filter` keeps the type and the length: the accepted elements in order, then `T{}` padding; without a buffer it returns a copy |
| Arrays.FilterLoop | include/typeless.h:500-527 | the two loops of `filter` compute exactly that array |
| Arrays.Fold | include/typeless.h:533-537 | the left-to-right fold over no elements is the initial result |
| Arrays.FoldAppend | include/typeless.h:529-539 | folding a concatenation folds the second part from the first part's result |
| Arrays.ForEach | include/typeless.h:490-498 | `for_each` visits the elements in index order, none for an array without a buffer |
| Arrays.Join | include/typeless.h:529-539 | `join` on an array without a buffer, or with no elements, yields the value-initialised result |
| Arrays.JoinSnoc | include/typeless.h:533-537 | one more element at the end applies the callback once more to it and the shorter array's result; with the empty case this determines `join` as the left-to-right fold |
| Arrays.JoinLoop | include/typeless.h:529-539 | the loop of `join` as written computes `Join` |
| Arrays.AddInto | include/typeless.h:80-83 | `default_join` into an `int` adds the promoted element: the new result minus the old is the element's promoted value |
| Arrays.AppendInto | include/typeless.h:80-83 | `default_join` into a `std::string` appends: the old result is a prefix, followed by the string element or the one `char` element |
| Arrays.SumOfDefaults | include/typeless.h:519-525 | summing `T{}` padding adds nothing |
| Arrays.AppendOfDefaults | include/typeless.h:519-525 | concatenating `std::string{}` padding adds nothing |
| Arrays.AppendOfNuls | include/typeless.h:519-525 | joining `char{}` padding into a string appends one NUL character per element |
| Arrays.FilterThenSum | include/typeless.h:500-539 | summing a filtered arithmetic array sums exactly the accepted elements |
| Arrays.FilterThenConcat | include/typeless.h:500-539 | joining a filtered string array concatenates exactly the accepted strings |
| Arrays.FilterExample | test/array_test.h:110-114 | `{1, ..., 9}` filtered by `i % 3 == 0` sums to 18 |
| Arrays.JoinChars | include/typeless.h:529-539 | joining any array of `char` into a `std::string` spells out exactly its characters |
| Arrays.JoinCharsExample | test/array_test.h:77-82 | `{'f', 'o', 'o', ' ', 'b', 'a', 'r'}` joined into a string is "foo bar" |

## Left out

- Raw storage is replaced by sequences. This covers `void*` buffers, placement new, `destroy_at`/`destroy_n`, the allocator calls, `advance`/`distance`, `destroy()`, `invalidate()`, `data()` and the `begin`/`end` iterators. The value semantics are modelled; addresses and lifetimes are not.
- The process-wide helper singletons and the allocator template parameter are plumbing. The helper is a pure function of the element type.
- The `HasOperatorEqual` trait is compile-time metaprogramming. It is replaced by the predicate `HasEq` on the closed type universe.
- Floating-point types, `const char*`, and other library types such as `std::vector` are not modelled. Neither are arrays of `Object` (`ObjectArray`) or arrays of user classes with `operator==`. The closed universe keeps one representative per row of the behaviour table.
- `type_info::name()` is implementation-defined and appears only as a parameter.
- The two `ostream` operators are output only.
- Constructor and destructor call counting is a C++ lifetime detail.
- Four tests expect behaviour the header does not have, and the model follows the header. Three call an `emplace` member that does not exist, on `Object` (test/test.cpp:41-45) and on `Array` (test/test.cpp:243-255). The fourth expects `Array::set` to copy-assign the element (test/test.cpp:236-241).
- Objects.CopyAssign: assigning an empty box over a non-empty one is excluded by a precondition. The header releases the value but leaves the stale value pointer, so `empty()` would wrongly report false.
- Arrays.CopyAssign: assigning an untyped array over one with a buffer is excluded for the same reason.
- Arrays.SetType: requires an array without a buffer. The header releases the elements but leaves `arr_`/`end_` pointing at freed storage.
- Arrays.Size: requires a typed array, because `size()` on an untyped one dereferences a null helper.
- Arrays.SetAt: models the evidently intended `set(off, ele)`: destroy the element at `off` and copy-construct `ele` in its place. As written, line 481 passes the `void*` from line 479 to `copy_construct_at(T*, const T&)`, so `T` is deduced both as `void` and as the element type, and `set<T>` does not instantiate.
- Arrays.SetAt: does not model `set(i, e)` where `e` refers to the element being replaced (as in `a.set(i, a.at<T>(i))`, `at<T>` returning `T&`). The header destroys the slot before copy-constructing from `e`, which reads a destroyed object; the model puts `e` at `i` as for an unrelated `e`.
- Arrays.ForEach: the callback is a pure function of the element and a state. The header hands it `T&` through a `const` member, so a callback taking `T&` can modify the array in place, and one that throws propagates mid-traversal; neither is modelled.
- Arrays.Filter: the predicate is taken to leave the element unchanged and not to throw. The header hands it `T&` and copies the element after the predicate ran, so a modifying predicate would change what is copied; a throwing one leaves the new buffer partly constructed when it is destroyed.
- Arrays.FilterLoop: the same assumptions about the predicate as `Arrays.Filter`.
- Arrays.Join: a callback that throws, which would propagate and discard the partial result, is not modelled; the callback takes `const T&`, so it cannot modify elements.
- Values.SignedChar: `char` is fixed to signed, as on x86, x86-64 and Windows; on AArch64 and ARM Linux `char` is unsigned and promotes to [0, 256).
- Objects.Set: does not model `set(v)` where `v` refers to the box's own value (as in `o.set(o.get<T>())`). The header releases the old value before copying from `v`, which reads freed storage; the model returns `Holds(v)` as for an unrelated `v`.
- Arrays.FromList: owning a buffer when given zero elements assumes `allocate(0)` returns a non-null pointer, which depends on the allocator.
- Arrays.FromRange: the same zero-length allocation assumption for an empty range.
- Arrays.Copy: the same assumption for a typed source with no elements or no buffer.
- Arrays.Resize: the same assumption for `resize(0)` on a typed array, and `deallocate(nullptr, 0)` taken as a no-op when the typed array had no buffer.
- Arrays.SetTypeThenResize: resizes a typed array without a buffer, so it relies on `deallocate(nullptr, 0)` being a no-op and on `allocate(n)` being non-null for `n == 0`.
- Arrays.Filter: the same assumption for a typed input with no elements, and for a typed input with no buffer, which is returned as a copy.
- Arrays.Resize: `make_copy` already value-initialises the new tail, and `resize` then constructs it a second time. The model gives the same values and does not track the double construction.
- Arrays.Join: the `int` accumulator of `AddInto` is unbounded, so an overflowing sum is not modelled as undefined.
- Arrays.AppendInto: elements that `r += v` on a `std::string` would narrow to a `char` (`int`, `bool`) leave the result unchanged instead of appending that character. An opaque element, which does not compile there, also leaves it unchanged.
- Arrays.AddInto: a string or opaque element, for which `r += v` on an `int` does not compile, leaves the result unchanged.
- Objects.Apply: signed overflow and division by zero are undefined behaviour in the header, and are excluded by the precondition `ArithmeticDefined` rather than modelled.

## Findings

| source | as written | input that shows it | evidently intended | confidence | as-written member | corrected member |
|---|---|---|---|---|---|---|
| include/typeless.h:272-277 | `operator>` returns `!less(l, r)`, which is "greater or equal" | `Object(5) > Object(5)` is true while `Object(5) < Object(5)` is false | strictly greater, `less(r, l)` | high, not executed | Objects.GtTrueOnEqual | Objects.GtStrictIsConverseLess |
