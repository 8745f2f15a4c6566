# Interner model

A Dafny model of the interning tables of the Rust compiler's `libsyntax`
(`src/libsyntax/util/interner.rs`). An interner assigns each distinct value a
small dense handle (`Name`) and supports lookup both ways. It keeps two stores:

- `vect`: a dense, append-only sequence of values, where a handle is a position;
- `index`: the dedup map from value to handle.

`intern` is check-then-insert through the index. `gensym` and `gensym_copy`
append without touching the index. Their entries therefore never come back
from `find`. This is the hygiene rule that keeps compiler-made names apart
from user-written names with the same spelling.

Layout:

- `names.dfy` (module `Names`): the handle type, a 32-bit unsigned `newtype`,
  and `Option`.
- `stores.dfy` (module `Stores`): the representation invariant `Coherent`,
  which both interners share. It also holds `Dedup`, the dense store that
  prefilling produces, and the lemmas about prefilling.
- `interner.dfy` (module `Interning`): the class `Interner<T>` (the generic
  table) and the class `StrInterner` (the table over strings, with
  `gensym_copy` and `reset`). Both stores are fields that the methods
  reassign under `modifies this`. The read-only queries `get`, `len` and
  `find` are functions that read `this`.
- `interner_tests.dfy` (module `InternerTests`): the file's unit tests as
  methods. Each test's postcondition states the handles and values that the
  test asserts. The module also has client methods that state the general
  promises (idempotence, distinctness, gensym freshness, round trip) for an
  arbitrary interner.

The class invariant `Valid()` is `Coherent(vect, index, Gensyms)`. `Gensyms` is
a ghost field that records the positions minted by `gensym` or `gensym_copy`.
The invariant says four things:

- every index entry `v -> n` has `n < |vect|` and `vect[n] == v`;
- a position is a gensym exactly when it is not the indexed handle of its
  own value;
- `|vect| == |index| + |Gensyms|`, so the length counts the interning events;
- every position fits in a 32-bit handle.

Every constructor and mutating method re-establishes it.

An out-of-range `get`, or an out-of-range `gensym_copy`, is a fatal indexing
panic in the source, not a recoverable error. The model makes it a
precondition (`idx < |vect|`), so a call that could panic does not verify.

## Model

| member | source | states |
|---|---|---|
| `Stores.Dedup` | src/libsyntax/util/interner.rs:41-47 | the store that prefilling builds holds exactly the values of the list, each once, and is no longer than the list |
| `Stores.DedupStep` | src/libsyntax/util/interner.rs:41-61 | interning the next list value appends it exactly when it has not occurred earlier in the list, and otherwise leaves the store as it was |
| `Stores.DedupPrefix` | src/libsyntax/util/interner.rs:41-47 | interning further values never renumbers the values interned from a prefix of the list |
| `Stores.DedupFirstPosition` | src/libsyntax/util/interner.rs:41-47 | the first occurrence of a value gets as handle the number of distinct values before it |
| `Stores.IndexWithoutGensyms` | src/libsyntax/util/interner.rs:49-61 | in a table with no gensyms, the index keys are exactly the stored values, and each key is indexed at its own position |
| `Stores.PrefillStep` | src/libsyntax/util/interner.rs:41-61 | one prefill step: a value already indexed leaves the store equal to the deduplicated longer prefix; a new value fits in a handle and its append gives that prefix |
| `Stores.PrefilledIndex` | src/libsyntax/util/interner.rs:41-47 | after prefilling, `find` knows exactly the list's values, and a value's first occurrence decides its handle |
| `Interning.Interner.constructor` | src/libsyntax/util/interner.rs:34-39 | a new interner has both stores empty and satisfies the invariant |
| `Interning.Interner.Prefill` | src/libsyntax/util/interner.rs:41-47 | interns the list in order: the store is the distinct values in first-occurrence order, the index keys are the list's values, each value's handle is the count of distinct values before its first occurrence, and there are no gensyms |
| `Interning.Interner.Intern` | src/libsyntax/util/interner.rs:49-61 | an indexed value returns its handle and changes nothing; a new value returns the old length, is appended, and is indexed under that handle; afterwards `find` gives the returned handle, and no other indexed value shares it |
| `Interning.Interner.Gensym` | src/libsyntax/util/interner.rs:63-69 | returns the old length, appends the value, leaves the index unchanged, and records the position as a gensym |
| `Interning.Interner.Get` | src/libsyntax/util/interner.rs:71-74 | defined only for handles below the length; looking the result up with `find` gives back the handle exactly when the handle is not a gensym |
| `Interning.Interner.Len` | src/libsyntax/util/interner.rs:76-79 | the length equals the number of deduplicated entries plus the number of gensyms, and is at most 2^32, the number of handles |
| `Interning.Interner.Find` | src/libsyntax/util/interner.rs:81-88 | returns the unique non-gensym position that holds the value, or `None` when every position holding it is a gensym |
| `Interning.Interner.Clear` | src/libsyntax/util/interner.rs:90-93 | empties both stores, so the next handle is 0 again |
| `Interning.StrInterner.constructor` | src/libsyntax/util/interner.rs:105-110 | a new string interner is empty and satisfies the invariant |
| `Interning.StrInterner.Prefill` | src/libsyntax/util/interner.rs:112-116 | as for the generic interner: the store is the distinct strings in first-occurrence order, the index keys are the list's strings, and each string's handle is the count of distinct strings before its first occurrence |
| `Interning.StrInterner.Intern` | src/libsyntax/util/interner.rs:118-130 | an indexed string returns its handle with nothing changed; a new string gets the old length as handle, is appended, and is indexed; `find` then returns that handle |
| `Interning.StrInterner.Gensym` | src/libsyntax/util/interner.rs:132-137 | returns the old length, appends the string, and leaves the index unchanged |
| `Interning.StrInterner.GensymCopy` | src/libsyntax/util/interner.rs:149-156 | requires an existing handle; returns the old length, appends a copy of that entry's string, keeps every earlier entry, and leaves the index unchanged |
| `Interning.StrInterner.Get` | src/libsyntax/util/interner.rs:158-160 | defined only below the length; `find` of the result gives back the handle exactly when the handle is not a gensym |
| `Interning.StrInterner.Len` | src/libsyntax/util/interner.rs:162-164 | the length equals the deduplicated entries plus the gensyms, and is at most 2^32, the number of handles |
| `Interning.StrInterner.Find` | src/libsyntax/util/interner.rs:166-172 | returns the unique non-gensym position that holds the string, and `None` when there is none |
| `Interning.StrInterner.Clear` | src/libsyntax/util/interner.rs:174-177 | empties both stores |
| `Interning.StrInterner.Reset` | src/libsyntax/util/interner.rs:179-182 | both stores (and the gensym record) become those of the other table |
| `InternerTests.InternTwice` | src/libsyntax/util/interner.rs:200-203 | two consecutive interns of one value return the same handle, which `find` then returns |
| `InternerTests.InternDistinct` | src/libsyntax/util/interner.rs:203-205 | interning two different values gives two different handles |
| `InternerTests.GensymTwice` | src/libsyntax/util/interner.rs:209-214 | two gensyms of one value give distinct handles, neither equal to any indexed handle, and `find` of the value is unchanged |
| `InternerTests.RoundTrip` | src/libsyntax/util/interner.rs:215-219 | a handle from `intern` or from `gensym` is in range, and `get` returns the value it was minted for |
| `InternerTests.GensymThenIntern` | src/libsyntax/util/interner.rs:63-69 | a gensym handle differs from the handle a later intern returns, even for the same value |
| `InternerTests.RoundTripLater` | src/libsyntax/util/interner.rs:215-219 | an existing handle keeps its value across a further intern and gensym, and the new handles read back their own values |
| `InternerTests.OutOfRangeOnEmpty` | src/libsyntax/util/interner.rs:190-195 | handle 13 is out of range on an empty interner, so `get(13)` cannot be called there |
| `InternerTests.InternDogsAndCats` | src/libsyntax/util/interner.rs:200-208 | "dog" gets 0, "cat" gets 1, and repeated interns reuse those handles |
| `InternerTests.GensymZebrasAndDog` | src/libsyntax/util/interner.rs:209-214 | gensyms of "zebra", "zebra" and "dog" get 2, 3 and 4 |
| `InternerTests.InternerScenario` | src/libsyntax/util/interner.rs:197-220 | the whole test: handles 0,0,1,1,0,2,3,4 and values dog, cat, zebra, zebra, dog |
| `InternerTests.PrefillScenario` | src/libsyntax/util/interner.rs:222-233 | prefilling Alan, Bob, Carol stores them at 0, 1, 2, and interning Bob again returns 1 |
| `InternerTests.StrInternDogsAndCats` | src/libsyntax/util/interner.rs:239-246 | on the string interner, "dog" gets 0 and "cat" gets 1, with reuse |
| `InternerTests.StrGensymZebrasAndDog` | src/libsyntax/util/interner.rs:247-252 | on the string interner, the three gensyms get 2, 3 and 4 |
| `InternerTests.StrCopyZebraTwice` | src/libsyntax/util/interner.rs:253-262 | two `gensym_copy(2)` calls get 5 and 6, both read "zebra", and entries 0 to 4 keep their values |
| `InternerTests.StrInternerScenario` | src/libsyntax/util/interner.rs:235-263 | the whole string test: handles 0,0,1,1,0,2,3,4,5,6 and the values it reads back |
| `InternerTests.HygieneScenario` | src/libsyntax/util/interner.rs:132-137 | a gensym'd spelling is not found; interning that spelling later mints a new handle, which is found |
| `InternerTests.ClearResetScenario` | src/libsyntax/util/interner.rs:174-182 | after `clear` the next handle is 0; after `reset` the table answers `find` with the other table's handles |

## Left out

- Interior mutability (`RefCell`) and its run-time borrow checks. Both stores are plain fields, and methods update them under `modifies this`.
- Shared ownership (`Rc`, `InternedString`). Values are compared by value only. The pointer sharing that `gensym_copy` aims for is therefore not modelled: the copy is equal to the original, not an alias of it.
- Hashing and the `HashMap` implementation. The index is a Dafny `map`.
- The `Borrow<Q>` generic lookup in `find`. Lookup takes the stored type itself (`T`, or `string` for `StrInterner`).
- The external types `ast::Name` and `parse::token::InternedString` are not part of this model. `Name` is a `newtype` over `[0, 2^32)`, and an interned string is a Dafny `string`.
- The generic interner requires `T` to have equality and to hold no references (`T(==,!new)`). This stands in for the source's `Eq + Hash + Clone` bounds.
- Interning.Interner.Intern: requires that a new value still fits in a 32-bit handle (`|vect| < 2^32`). The source's `as u32` cast would silently wrap instead; that wrap-around is not modelled.
- Interning.Interner.Gensym: requires `|vect| < 2^32`, for the same cast.
- Interning.Interner.Prefill: requires that the list holds at most `2^32` distinct values, for the same cast.
- Interning.StrInterner.Intern: requires room for a new handle, as for the generic interner.
- Interning.StrInterner.Gensym: requires `|vect| < 2^32`, for the same cast.
- Interning.StrInterner.GensymCopy: requires `|vect| < 2^32`, for the same cast.
- Interning.StrInterner.Prefill: requires at most `2^32` distinct strings, for the same cast.
- The unused imports of `fmt`, `Ordering` and `Deref`.
