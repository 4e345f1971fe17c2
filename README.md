# BugStalker core, modelled in Dafny

BugStalker is a debugger for Rust programs on Linux. This project models two parts of it.

**The variable representation** (`src/debugger/variable/mod.rs`). It covers:
- the tree `VariableIR` that debug information is decoded into: scalars, structures, arrays, C and Rust enumerations, pointers, and the specialized library types (vectors, strings, maps, sets, cells, `Rc`/`Arc`, UUIDs);
- the breadth-first iterator over that tree, and the lookups built on it;
- `field` and `index`, and in-place slicing of an array;
- `match_literal`, which compares a variable with a literal pattern, including wildcards; the set arm is modelled both as the source writes it (greedy, in iteration order) and as a one-to-one pairing, which the rest of the model uses (see Findings);
- the decoding rules of `parse_scalar`, `parse_c_enum` and `parse_rust_enum`;
- how a `VariableIdentity` is displayed.

**The debugger driver** (`src/debugger/mod.rs`). It covers:
- the conversion between addresses in the object file (`GlobalAddress`) and addresses in the running process (`RelocatedAddress`);
- the breakpoint table `HashMap<PCValue, Breakpoint>` and everything that changes it: `new`, `set_breakpoint`, `remove_breakpoint`, the `DebugeeStart` arm of `continue_execution`, `step_over_breakpoint`, `step_out` and `step_over`;
- the word-by-word memory read `read_memory_by_pid`.

The files follow the source:

| File | Module | Contents |
|---|---|---|
| `wrappers.dfy` | `Wrappers` | `Option` |
| `select.dfy` | `Select` | the literal patterns of the expression language (`Literal`, `LiteralOrWildcard`) |
| `identity.dfy` | `Identity` | `VariableIdentity` and its `Display` |
| `variable_ir.dfy` | `VariableIr` | the tree, `match_literal`, `field` and `index` as functions |
| `set_match.dfy` | `SetMatch` | the set comparison as an assignment problem; the greedy procedure of the source and the perfect-matching reference definition |
| `matching.dfy` | `Matching` | the set-comparison loop as a method, and the properties of `match_literal` |
| `queries.dfy` | `Queries` | `ArrayVariable::slice` (a class), plus the `index` and `field` properties |
| `bfs.dfy` | `Bfs` | `BfsIterator` (a class with a queue), its specification `BfsOrder`, and the `assume_field_as_*` lookups |
| `parser.dfy` | `Parser` | `parse_scalar`, little-endian decoding, `parse_c_enum`, `parse_rust_enum` |
| `addresses.dfy` | `Addresses` | `into_global` / `relocate` |
| `breakpoints.dfy` | `Breakpoints` | the table as a value, and its re-keying on start |
| `debugger.dfy` | `Driver` | the `Debugger` class and its commands |
| `memory.dfy` | `Memory` | `read_memory_by_pid` |

Operating-system effects are not performed. The `Debugger` class appends each one to a log field `osLog`, in the order it is issued:
- writing a trap instruction (`Enable`);
- clearing one (`Disable`);
- single-stepping the thread in focus (`SingleStep`).

Things the model cannot observe are supplied by its callers:
- The address the processor reaches after one instruction is the constructor parameter `nextInstr`.
- The events the debuggee reports while it runs are a parameter `events: seq<DebugeeEvent>`.
- The unwinder's return address is a parameter `retAddr`.
- The line rows that the line-table walk visits from each function range are a parameter (`FunctionRange.walk`).
- The word read `ptrace::read` is a function parameter `peek` of `ReadMemoryByPid`.

Integers are unbounded in Dafny. The source's `usize` and `i64` arithmetic is therefore written out:
- `relocate` and `into_global` are modulo 2^64;
- the `as i64` and `as usize` casts are the functions `WrapI64` and `I64ToUsize`;
- a little-endian read of a signed type is `ToSigned`.

## Model

| member | source | states |
|---|---|---|
| Identity.TrimUnderscores | src/debugger/variable/mod.rs:101 | `trim_start_matches('_')` removes exactly a leading run of underscores. The result is a suffix of the input that does not start with `_`. |
| Identity.TrimUnderscoresOfRun | src/debugger/variable/mod.rs:101 | Trimming `k` underscores in front of a string that does not start with `_` gives that string. |
| Identity.TrimmedNameSplits | src/debugger/variable/mod.rs:101-102 | A name is the run of underscores that `trim_start_matches` removes, followed by what it leaves. |
| Identity.DisplayName | src/debugger/variable/mod.rs:99-105 | A name is shown unchanged, or, only when it starts with two underscores, as a shorter text that parses as a `u64`. |
| Identity.DisplayNameOfNumberedName | src/debugger/variable/mod.rs:99-105 | A name `__…_<digits>` (at least two underscores, then a `u64` number) is displayed as the digits alone. |
| Identity.DisplayNameChangesOnlyNumbered | src/debugger/variable/mod.rs:99-105 | Every other name is displayed unchanged: one without two leading underscores, or one whose rest is not a `u64`. |
| Identity.RenderWithoutNamespace | src/debugger/variable/mod.rs:92-98 | An identity with no namespace shows its (display) name only. A missing name shows `{unknown}`. |
| Identity.RenderWithNamespace | src/debugger/variable/mod.rs:90-111 | With a non-empty namespace, the whole text is the namespaces joined by `::`, then `::`, then the display name, or `{unknown}` when there is no name. |
| Identity.RenderTwoLevels | src/debugger/variable/mod.rs:90-111 | `[ns1, ns2]` and `__<k>digits` render as `ns1::ns2::digits`. |
| Identity.RenderUnnamed | src/debugger/variable/mod.rs:98 | An unnamed identity in namespace `ns` renders as `ns::{unknown}`. |
| VariableIr.WrapI64 | src/debugger/variable/mod.rs:161-172 | The `as i64` cast: an `i64` congruent to the input modulo 2^64. It is the identity on values that fit. |
| VariableIr.I64ToUsize | src/debugger/variable/mod.rs:591 | The `as usize` cast of an `i64`: congruent modulo 2^64. A negative index becomes at least 2^63. |
| VariableIr.TryAsNumber | src/debugger/variable/mod.rs:192-207 | `try_as_number` gives a number exactly for integer scalars other than 128-bit ones. The number is the value cast to `i64`. |
| VariableIr.TryAsNumberWrapsLargeUnsigned | src/debugger/variable/mod.rs:201 | `u64::MAX` reads as -1, and an `i128` gives no number. |
| VariableIr.WithName | src/debugger/variable/mod.rs:493-522 | Setting the name through `identity_mut` changes the name and nothing else of the identity. It keeps the node's kind. |
| VariableIr.WithNameRoundTrip | src/debugger/variable/mod.rs:493-522 | Renaming, then restoring the old name, gives back the same node: `identity_mut` touches nothing else. |
| VariableIr.CloneAndRename | src/debugger/variable/mod.rs:687-692 | The copy has the new name and the original's namespace. |
| VariableIr.UuidText | src/debugger/variable/mod.rs:787-792 | A UUID is shown as 36 characters with hyphens at positions 8, 13, 18 and 23. |
| VariableIr.EqualWithLiteral | src/debugger/variable/mod.rs:159-177 | An integer scalar equals exactly the integer literal of its value cast to `i64`. Floats and empty scalars equal nothing. Only integer, boolean and one-character string literals can be equal. |
| VariableIr.MatchLiteral | src/debugger/variable/mod.rs:696-905 | A match needs a literal of the node's kind: arrays match only array literals, structures array or associative-array literals, pointers only addresses, enumerations only enum variants. Subroutines and C-modified types match nothing. |
| VariableIr.SetLiteralMatches | src/debugger/variable/mod.rs:824-873 | A set can only match an array literal of its own length. Its one-to-one meaning is `Matching.SetMatchIffAssignment`. |
| VariableIr.GreedySetMatch | src/debugger/variable/mod.rs:838-872 | Whatever the source's greedy comparison accepts, the one-to-one comparison accepts too. |
| VariableIr.Field | src/debugger/variable/mod.rs:545-585 | Only structures, Rust enumerations and specialized variables have fields. |
| VariableIr.Index | src/debugger/variable/mod.rs:587-638 | Only arrays, Rust enumerations and specialized variables can be indexed. An array yields one of its items, and only for an integer literal. |
| VariableIr.FirstNamed | src/debugger/variable/mod.rs:547-550 | The member `find` returns: none iff no member has that name; otherwise the first member with that name. |
| VariableIr.FirstStringKey | src/debugger/variable/mod.rs:553-571 | The value of the first pair whose `String`/`Str` key equals the field name, renamed to it. None iff no key is such a string. |
| VariableIr.FirstKeyMatching | src/debugger/variable/mod.rs:614-622 | The value of the first pair whose key matches the literal, renamed `value`. None iff no key matches. |
| SetMatch.FirstSet | src/debugger/variable/mod.rs:844-860 | `position`: the first remaining slot whose flag is set, and none iff no remaining slot's flag is set. |
| SetMatch.SwapRemoveMultiset | src/debugger/variable/mod.rs:852 | `swap_remove(i)` removes exactly one occurrence of element `i`. |
| SetMatch.GreedyStep | src/debugger/variable/mod.rs:843-869 | When an item finds a slot, the comparison continues with the next item and that slot removed. |
| SetMatch.GreedyStuck | src/debugger/variable/mod.rs:868-870 | When an item finds neither a matching literal nor a wildcard, the sets are unequal. |
| SetMatch.PerfectMatchIffAssignment | src/debugger/variable/mod.rs:824-873 | The reference definition (try every free slot for each item) holds iff the items can be assigned distinct positions of the literal that each accepts them. |
| SetMatch.GreedyImpliesPerfect | src/debugger/variable/mod.rs:838-872 | Whenever the greedy procedure says equal, a one-to-one assignment exists. |
| SetMatch.GreedyRejectsMatchableTable | src/debugger/variable/mod.rs:838-872 | A 2×2 table that has an assignment, which the greedy procedure rejects. |
| SetMatch.AllWildcardsMatch | src/debugger/variable/mod.rs:856-866 | A literal of wildcards only matches any set of the same size. |
| SetMatch.SwapAssignment | src/debugger/variable/mod.rs:824-873 | Exchanging two items while exchanging their assigned positions gives an assignment again. |
| SetMatch.PerfectMatchIgnoresItemOrder | src/debugger/variable/mod.rs:824-873 | Whether a perfect matching exists does not depend on the order of the items. |
| SetMatch.GreedyDependsOnItemOrder | src/debugger/variable/mod.rs:838-872 | The greedy procedure accepts one order of two items and rejects the other. |
| Matching.PositionOfMatch | src/debugger/variable/mod.rs:844-850 | `position` for the first literal the item matches: that literal matches, and none before it does. |
| Matching.PositionOfWildcard | src/debugger/variable/mod.rs:858-860 | `position` of the first wildcard: it is a wildcard, and none before it is. |
| Matching.MatchSetLiteral | src/debugger/variable/mod.rs:824-873 | The set arm's loop, with its mutable copy of the literal and `swap_remove`, computes `GreedySetMatch`. |
| Matching.SetMatchIffAssignment | src/debugger/variable/mod.rs:824-873 | In this model, a set matches an array literal iff the lengths agree and each item gets its own position, whose literal it matches or which is a wildcard. |
| Matching.SetMatchIgnoresItemOrder | src/debugger/variable/mod.rs:824-873 | Set comparison does not depend on the order in which the items are stored. |
| Matching.SetMatchesAllWildcards | src/debugger/variable/mod.rs:2080-2111 | `[_, …, _]` matches any set of the same size. |
| Matching.SetMatchNeedsSameLength | src/debugger/variable/mod.rs:835-837 | A literal of another length never matches, greedily or not. |
| Matching.PairMatches | src/debugger/variable/mod.rs:727-748 | A tuple `(1, 2)` matches `(1, _)` and `(1, 2)`. The tuple `(1, 3)` matches only `(1, _)`. |
| Matching.GreedySetMatchCounterexample | src/debugger/variable/mod.rs:838-872 | The set `{(1,2), (1,3)}` against `[(1,_), (1,2)]`: greedy says unequal, although an assignment exists. |
| Matching.PointerMatchesOnlyItsAddress | src/debugger/variable/mod.rs:702-704 | A pointer matches exactly the address literal of its value, and not the integer literal of the same number (the test at line 1829). |
| Matching.IntegerMatchesAfterCast | src/debugger/variable/mod.rs:160-172 | `u64::MAX` equals the literal -1 after the `as i64` cast, and an `i32` 5 equals 5. |
| Matching.CEnumMatchIff | src/debugger/variable/mod.rs:876-884 | A C enumeration matches exactly `EnumVariant(v, None)` for its own variant name. |
| Matching.RustEnumMatchIff | src/debugger/variable/mod.rs:885-900 | A Rust enumeration matches `EnumVariant(v, p)` iff its selected variant is named `v` and, when `p` is given, the variant matches `p`. |
| Matching.ArrayMatchIff | src/debugger/variable/mod.rs:705-726 | An array matches an array literal iff the lengths agree and every non-wildcard position matches its item. |
| Matching.WrappersMatchInner | src/debugger/variable/mod.rs:793-823 | Cells, reference cells and vectors compare their inner value. An empty cell matches nothing. |
| Matching.MatchIgnoresOwnName | src/debugger/variable/mod.rs:696-905 | A variable's own name does not affect whether it matches. |
| Matching.UuidTextInjective | src/debugger/variable/mod.rs:787-792 | Different UUIDs have different string forms. |
| Matching.UuidMatchUnique | src/debugger/variable/mod.rs:787-792 | A string literal matches at most one UUID value. |
| Queries.Sliced | src/debugger/variable/mod.rs:230-240 | The slice keeps positions `left..right` of the old items, with missing bounds read as 0 and the length. Absent items stay absent. |
| Queries.ArrayVariable.Slice | src/debugger/variable/mod.rs:230-240 | The in-place drains leave `Sliced(old items, left, right)`, and the identity and type name unchanged. |
| Queries.SliceWithoutBounds | src/debugger/variable/mod.rs:230-240 | `slice(None, None)` changes nothing. |
| Queries.SliceTwice | src/debugger/variable/mod.rs:230-240 | Two slices compose into one, with the inner bounds shifted by the outer left bound. |
| Queries.IndexAfterSlice | src/debugger/variable/mod.rs:230-240 | Element `k` of a slice is element `left + k` of the original. |
| Queries.IndexArrayNonNegative | src/debugger/variable/mod.rs:589-597 | `Int(i)` with `i ≥ 0` gives `items[i]` when in range, and None otherwise. |
| Queries.IndexArrayNegative | src/debugger/variable/mod.rs:589-597 | A negative index gives None. |
| Queries.IndexArrayNeedsInt | src/debugger/variable/mod.rs:589-597 | A non-integer literal, or an array without items, gives None. |
| Queries.IndexVector | src/debugger/variable/mod.rs:600-604 | Vectors are indexed through their element array. |
| Queries.IndexMapFirstMatch | src/debugger/variable/mod.rs:612-623 | Hash maps and B-tree maps agree. The result is defined iff some key matches, and it is that pair's value, named `value`. |
| Queries.FindValueByKey | src/debugger/variable/mod.rs:614-622 | The `for` loop over the pairs returns `FirstKeyMatching`. |
| Queries.IndexOfHashMap | src/debugger/variable/mod.rs:612-623 | Indexing a hash map is `FirstKeyMatching`. |
| Queries.IndexOfBTreeMap | src/debugger/variable/mod.rs:612-623 | Indexing a B-tree map is `FirstKeyMatching`. |
| Queries.IndexSetIsMembership | src/debugger/variable/mod.rs:624-633 | With a matching item, both kinds of set answer a `bool` scalar named `contains` holding true. |
| Queries.IndexOfSet | src/debugger/variable/mod.rs:624-633 | Indexing a set answers whether some item matches. |
| Queries.IndexSetWithoutMatch | src/debugger/variable/mod.rs:624-633 | Without a matching item the answer is false. |
| Queries.IndexIgnoresOwnName | src/debugger/variable/mod.rs:587-638 | The indexed variable's own name does not affect the result. |
| Queries.FieldOfStruct | src/debugger/variable/mod.rs:547-550 | A structure's field is its first member with that name. It is None iff there is none. |
| Queries.FieldOfHashMap | src/debugger/variable/mod.rs:553-571 | A hash map's field is the value under the string key of that name, renamed to it. It is None iff no key is such a string. |
| Queries.FieldOfHashMapIsFirstStringKey | src/debugger/variable/mod.rs:553-571 | Taking a field of a hash map is `FirstStringKey`. |
| Queries.FieldUnsupported | src/debugger/variable/mod.rs:579-583 | B-tree maps, sets, arrays and scalars have no fields. |
| Queries.FieldThroughRustEnum | src/debugger/variable/mod.rs:551 | A Rust enumeration forwards to its selected variant, and without one gives None. |
| Queries.FieldThroughCells | src/debugger/variable/mod.rs:573-578 | Thread-locals, cells and reference cells forward to their inner value. |
| Queries.FieldHasAskedName | src/debugger/variable/mod.rs:545-585 | A field found in a structure or a hash map carries the asked name. |
| Queries.FieldIgnoresOwnName | src/debugger/variable/mod.rs:545-585 | The variable's own name does not affect the result. |
| Bfs.SizeIsOnePlusChildren | src/debugger/variable/mod.rs:1421-1496 | The children that `next` queues after a variable hold every variable below it: its size is one plus the sizes of its children. |
| Bfs.LeavesHaveNoChildren | src/debugger/variable/mod.rs:1421-1496 | Scalars queue no children, so a level of scalars is the last. |
| Bfs.BfsOrderLevels | src/debugger/variable/mod.rs:1421-1496 | The traversal of a queue yields the queue itself, then the traversal of what follows plus the next level. This is the level-by-level order. |
| Bfs.BfsOrderStep | src/debugger/variable/mod.rs:1421-1496 | The order is the front, then the order of the rest with the front's children appended. |
| Bfs.BfsOrderOfRoot | src/debugger/variable/mod.rs:395-400 | The root comes first, then its children in declaration order, then the next level. |
| Bfs.BfsOrderLength | src/debugger/variable/mod.rs:1414-1496 | The traversal yields as many variables as the queued trees hold. That each is yielded exactly once is `Bfs.BfsOrderIsPermutation`. |
| Bfs.FlattenAppend | src/debugger/variable/mod.rs:1414-1496 | The depth-first reference listing of two queues is the listing of the first, then of the second. |
| Bfs.BfsOrderIsPermutation | src/debugger/variable/mod.rs:1414-1496 | The traversal yields every variable of the queued trees exactly as often as the depth-first reference listing does: the two are permutations of each other. |
| Bfs.BfsIterator.constructor | src/debugger/variable/mod.rs:395-400 | `bfs_iterator` starts with a queue holding only the root. |
| Bfs.BfsIterator.Next | src/debugger/variable/mod.rs:1421-1496 | `next` pops the front and pushes its children at the back, or returns None on an empty queue. The front followed by what remains is what remained before. |
| Bfs.Collect | src/debugger/variable/mod.rs:1414-1496 | Draining a fresh iterator yields exactly `BfsOrder([root])`. |
| Bfs.AssumeFieldAsScalarNumber | src/debugger/variable/mod.rs:402-413 | `FieldNotFound` iff no visited variable has that name. Otherwise the first visited variable of that name decides: its number cast to `i64` if it is an integer scalar of at most 64 bits, else `FieldNotANumber`. |
| Bfs.AssumeFieldAsPointer | src/debugger/variable/mod.rs:416-427 | It fails with `IncompleteInterp("pointer")` iff no visited pointer of that name has a value. Otherwise it returns the address of the first such pointer in traversal order. |
| Bfs.AssumeFieldAsRustEnum | src/debugger/variable/mod.rs:430-444 | It fails with `IncompleteInterp("pointer")` (the source's text) iff no visited Rust enumeration has that name. Otherwise it returns the first one in traversal order. |
| Bfs.AssumeFieldAsStruct | src/debugger/variable/mod.rs:447-461 | It fails with `IncompleteInterp("structure")` iff no visited structure has that name. Otherwise it returns the first one in traversal order. |
| Bfs.LookupStopsAtRoot | src/debugger/variable/mod.rs:402-461 | A root bearing the asked name is visited first and decides each lookup: a non-number root gives `FieldNotANumber` even when a descendant of that name is a number. |
| Bfs.BfsOrderTwoArrays | src/debugger/variable/mod.rs:1511-1568 | A structure holding two arrays of two scalars yields the structure, both arrays, then the four scalars. |
| Bfs.BfsOrderExample | src/debugger/variable/mod.rs:1511-1568 | The first test tree is visited in the names order that the test expects. |
| Bfs.BfsOrderNested | src/debugger/variable/mod.rs:1571-1627 | A structure holding a structure (of a scalar, a Rust enumeration and a scalar) and a pointer yields the outer structure, the inner one, the pointer, the inner members, then the enumeration's selected variant. |
| Bfs.BfsOrderNestedExample | src/debugger/variable/mod.rs:1571-1627 | The second test tree is visited in the names order that the test expects. |
| Parser.IntKindOfSize | src/debugger/variable/mod.rs:930-971 | Integer sizes 0, 1, 2, 4, 8 and 16 are accepted, and nothing else. Size 0 is `Empty`. Any other size gives a kind of that width and of the encoding's signedness. |
| Parser.LittleEndianInjective | src/debugger/variable/mod.rs:1500-1503 | Writing back the number read from `w` bytes gives the same bytes. |
| Parser.ToSigned | src/debugger/variable/mod.rs:1500-1503 | A signed read lies in the signed range of the width, and differs from the unsigned read by 0 or 256^w. |
| Parser.Decode | src/debugger/variable/mod.rs:1500-1503 | An integer read has the chosen kind and lies in that kind's range. |
| Parser.ShapeOf | src/debugger/variable/mod.rs:926-986 | A read shape exists only for a known encoding. A float shape exists only for `DW_ATE_float` of 4 or 8 bytes, and has that width. |
| Parser.ParseScalar | src/debugger/variable/mod.rs:915-998 | The scalar keeps the identity and type name. It has a value iff the type is known and either it is zero-sized or there are bytes. |
| Parser.IntegerShapeMatchesDeclaration | src/debugger/variable/mod.rs:930-971 | An integer type is read with exactly its declared size and its declared signedness. |
| Parser.PointerSizedByName | src/debugger/variable/mod.rs:935-941 | An 8-byte integer is `isize`/`usize` exactly when the type is so named. |
| Parser.ZeroSizedScalars | src/debugger/variable/mod.rs:930-966 | A zero-sized or size-less integer is `Empty` whatever the bytes. A zero-sized float has no value. |
| Parser.UnknownTypesHaveNoValue | src/debugger/variable/mod.rs:926-986 | A missing or unknown encoding, a signed or unsigned size other than 0, 1, 2, 4, 8 and 16, or a float size other than 4 and 8, gives no value. |
| Parser.ParseScalarRoundTrip | src/debugger/variable/mod.rs:915-998 | An integer stored in little-endian order in its declared width is parsed back as itself. |
| Parser.DecodeRoundTrip | src/debugger/variable/mod.rs:1500-1503 | Decoding the stored bytes of an in-range integer gives that integer. |
| Parser.DecodeStored | src/debugger/variable/mod.rs:1500-1503 | Decoding the bytes of a stored number gives it back, signed or unsigned as the kind says. |
| Parser.ToSignedOfStored | src/debugger/variable/mod.rs:1500-1503 | The signed reading of a stored signed value is that value. |
| Parser.UnsignedAndSignedReadAgree | src/debugger/variable/mod.rs:192-207 | Eight bytes read as `u64` then cast, or read as `i64`, give the same discriminant. |
| Parser.DiscriminantOf | src/debugger/variable/mod.rs:1113-1119 | A discriminant exists only for a parsed scalar, and for every scalar it is that scalar's `try_as_number`. |
| Parser.ParseCEnum | src/debugger/variable/mod.rs:1095-1127 | The variant name is set iff the discriminant is readable and listed. It is then the listed name. |
| Parser.ParseRustEnum | src/debugger/variable/mod.rs:1128-1162 | No discriminant gives no variant. A listed discriminant selects its member. Any other discriminant falls back to the member without a discriminant value. |
| Parser.ParsedCEnumMatches | src/debugger/variable/mod.rs:1095-1127 | A parsed C enumeration matches `EnumVariant(v, None)` iff `v` is the name listed for its discriminant. |
| Parser.ParsedRustEnumFallsBack | src/debugger/variable/mod.rs:1146-1147 | With an unlisted discriminant, the parsed enumeration matches the default variant's name. |
| Parser.ParseRustEnumByScalar | src/debugger/variable/mod.rs:1137-1147 | An integer discriminant scalar selects the member listed for its value cast to `i64`. |
| Addresses.IntoGlobal | src/debugger/mod.rs:76-81 | Subtracting the offset, wrapping below 0. |
| Addresses.Relocate | src/debugger/mod.rs:85-90 | Adding the offset, wrapping at 2^64. |
| Addresses.IntoGlobalAfterRelocate | src/debugger/mod.rs:76-90 | `relocate` then `into_global` gives back the file address. |
| Addresses.RelocateAfterIntoGlobal | src/debugger/mod.rs:76-90 | `into_global` then `relocate` gives back the process address. |
| Addresses.RelocateInjective | src/debugger/mod.rs:85-90 | Distinct file addresses are relocated to distinct process addresses. |
| Breakpoints.RelocateTable | src/debugger/mod.rs:147-158 | After re-keying, every key is `Relocated`, as the debug assertion at lines 163-166 states. |
| Breakpoints.EnableAll | src/debugger/mod.rs:159-161 | Enabling every breakpoint keeps the keys and leaves every breakpoint enabled. |
| Breakpoints.RelocateTableMovesGlobals | src/debugger/mod.rs:154-158 | The entry of `Global(a)` moves to `Relocated(a + offset)`, with its `addr` equal to its new key. |
| Breakpoints.RelocateTableKeepsRelocated | src/debugger/mod.rs:147-158 | A relocated entry stays, unless an entry is moved onto its key. |
| Breakpoints.RelocateTableKeysFromOld | src/debugger/mod.rs:147-158 | Re-keying creates no key that does not come from an old one. |
| Breakpoints.RelocateTableKeyedByAddress | src/debugger/mod.rs:147-158 | Re-keying keeps every breakpoint stored under its own address. |
| Breakpoints.StartKeepsSettledTable | src/debugger/mod.rs:146-167 | A table of relocated, enabled breakpoints is unchanged by the start arm. |
| Driver.TableAfter | src/debugger/mod.rs:136-188 | A run that stops before any start is handled leaves the table unchanged. |
| Driver.TableAfterSettled | src/debugger/mod.rs:136-188 | Running never changes a table of relocated, enabled breakpoints. |
| Driver.TableAfterStart | src/debugger/mod.rs:146-167 | Once a start event is handled, every breakpoint is relocated and enabled. |
| Driver.RangeTargets | src/debugger/mod.rs:436-458 | No address collected from a range already has a breakpoint. |
| Driver.Visited | src/debugger/mod.rs:440 | The line walk stops at the first row at or past the range end. |
| Driver.RangeTargetsIff | src/debugger/mod.rs:440-452 | An address is collected from a range iff some visited row is a statement row, is not the current line, and has no breakpoint at its relocated address. |
| Driver.StepTargets | src/debugger/mod.rs:433-458 | The collection fails iff some range has no starting row. Its addresses have no breakpoint. |
| Driver.StepTargetsAreStatementRows | src/debugger/mod.rs:433-458 | Every collected address is the relocated address of such a statement row. |
| Driver.StatementRowsAreStepTargets | src/debugger/mod.rs:433-458 | Every such statement row inside a range is collected. |
| Driver.EnableOps | src/debugger/mod.rs:461-463 | Setting the temporaries issues one write per address, in order. |
| Driver.DisableOps | src/debugger/mod.rs:478-480 | Removing the temporaries issues only clears of breakpoints in the table that are written. |
| Driver.WithTemporariesAt | src/debugger/mod.rs:461-463 | After the temporaries are set, a key is present iff it was or is a temporary. A temporary key holds an enabled breakpoint at its address, and every other key keeps its entry. |
| Driver.WithTemporariesSnoc | src/debugger/mod.rs:465-474 | Setting one more temporary at the end is one more table update and one more write. |
| Driver.WithTemporariesExtend | src/debugger/mod.rs:461-463 | Temporaries at free addresses extend the table: every old entry is kept, every temporary is present, and nothing else is added. |
| Driver.TemporariesLeaveNoTrace | src/debugger/mod.rs:461-480 | Setting temporaries at free addresses and removing their keys gives the old table back. |
| Driver.RemovingTemporaries | src/debugger/mod.rs:478-480 | Removing the temporaries leaves exactly the keys that are not temporaries. A table that extends a base with entries at free temporary addresses only gives back the base. |
| Driver.StepLogOf | src/debugger/mod.rs:461-480 | The writes of the temporaries, then the effects of a run over the table holding them, then the clears of the temporaries still written, form a stepping command's effects. |
| Driver.Debugger.constructor | src/debugger/mod.rs:122-126 | A new debugger has exactly one breakpoint, a disabled one at `Global(entry_point)`, and has not started. |
| Driver.Debugger.SetBreakpoint | src/debugger/mod.rs:280-288 | The key is set to a fresh breakpoint, replacing any old one, and all other keys are unchanged. It is written only while the debuggee runs. |
| Driver.Debugger.RemoveBreakpoint | src/debugger/mod.rs:290-298 | Only that key is removed, and an absent key is a no-op. It is cleared only if it was enabled. |
| Driver.Debugger.ThreadStep | src/debugger/mod.rs:344 | One instruction executes, and the table is unchanged. |
| Driver.Debugger.StepOverBreakpoint | src/debugger/mod.rs:338-349 | The table, with each breakpoint's enabled flag, is as before. At a written breakpoint the effects are clear, step, write; elsewhere there are none. |
| Driver.Debugger.TakeGlobals | src/debugger/mod.rs:147-153 | The first loop takes out exactly the `Global` entries, keyed by their file address. |
| Driver.Debugger.PutRelocated | src/debugger/mod.rs:154-158 | The second loop puts every taken entry at its relocated key, with its `addr` updated, and keeps every other entry. |
| Driver.Debugger.EnableEvery | src/debugger/mod.rs:159-161 | Every breakpoint is enabled. The effects issued are exactly one write per key of the table. |
| Driver.Debugger.HandleStart | src/debugger/mod.rs:146-167 | The `DebugeeStart` arm leaves `EnableAll(RelocateTable(old, offset))`, with every key relocated and enabled, and records the mapping offset. Its effects are one write per breakpoint. |
| Driver.Debugger.ContinueExecution | src/debugger/mod.rs:136-188 | The table is `TableAfter(old, events)`, the mapping offset the last start's, and the program counter the one after the first step over and the handled events. The effects are the first step over, then each handled event's (`RunLog`). A started run leaves every breakpoint relocated and enabled. |
| Driver.Debugger.KeepRunning | src/debugger/mod.rs:146-170 | A start or entry-point event changes the table, offset, program counter and effects so that the rest of the run gives the same result as the run from before the event. |
| Driver.Debugger.SetTemporaries | src/debugger/mod.rs:461-463 | The table becomes the old one with an enabled breakpoint at each address and nothing else changed. One write per address is issued, in order. |
| Driver.Debugger.RemoveTemporaries | src/debugger/mod.rs:478-480 | Exactly the temporary keys are removed, with one clear for each that was written. When the table was a base plus those keys, the base is left. |
| Driver.Debugger.WalkRange | src/debugger/mod.rs:440-457 | The inner `while` loop collects `RangeTargets` of the range. |
| Driver.Debugger.CollectStepTargets | src/debugger/mod.rs:433-458 | The nested loop collects `StepTargets`. |
| Driver.Debugger.StepOut | src/debugger/mod.rs:364-380 | `NotStarted` before the start, and then nothing changes; nothing changes either without a return address. Otherwise the return address is a temporary unless a breakpoint is there: the table is the run's table minus that key, the offset and program counter follow the run, and the effects are its write, the run, then its clear. A settled table is unchanged. |
| Driver.Debugger.StepOver | src/debugger/mod.rs:409-483 | The outcome follows the source's error order: not started, no function, no current line, unknown range. Every error changes nothing. On success the temporaries are the collected targets, then the return address unless a breakpoint is there: the table is the run's table minus exactly their keys, the offset and program counter follow the run, and the effects are their writes, the run, then their clears. A settled table is unchanged. |
| Driver.Debugger.RunThenRemove | src/debugger/mod.rs:372-376 | With the temporaries set on top of a table, running then removing them leaves the run's table minus their keys, which is the table itself when it was settled. The effects are the writes, the run, then the clears. |
| Driver.Debugger.RunWithTemporaries | src/debugger/mod.rs:461-481 | Setting the targets and the return address (unless a breakpoint is there once the targets are set), running, and removing them gives the same table, counter, offset and effects as `Driver.Debugger.StepOver` states. |
| Memory.ReadWords | src/debugger/mod.rs:705-712 | The words read exist iff every word read succeeds. Together they give 8 bytes per word. |
| Memory.WordsFor | src/debugger/mod.rs:705-712 | ⌈n / 8⌉ words: enough for `n` bytes, and one fewer would not be. |
| Memory.ReadWordsByte | src/debugger/mod.rs:705-712 | Byte `k` is byte `k % 8` of word `k / 8`. |
| Memory.NextWordAddress | src/debugger/mod.rs:711 | `addr.offset(1)` on a `c_long` pointer advances 8 bytes, wrapping around. |
| Memory.ReadMemoryByPid | src/debugger/mod.rs:699-717 | The result is the first `n` bytes of the ⌈n/8⌉ words read from `addr` on, or an error if any word read fails. |
| Memory.ReadLength | src/debugger/mod.rs:714 | A successful read has exactly `n` bytes, as the debug assertion states. |
| Memory.ReadContent | src/debugger/mod.rs:705-712 | Byte `k` of the result is byte `k % 8` of the word at `addr + 8·(k / 8)`. |
| Memory.ReadNothing | src/debugger/mod.rs:699-717 | Reading 0 bytes reads no word and succeeds. |

## Left out

- Floating-point scalars keep only their width and raw bits, and never match a literal. `equal_with_float` compares floats, and no float semantics is modelled.
- `Parser.Decode`, `Parser.ParseScalar`: these require (`Readable`) what `read_unaligned` needs for the read to be defined. That means enough bytes, a boolean byte of 0 or 1, and a Unicode scalar value for `char`. The source reads without checking, and the behaviour outside that is undefined.
- `PointerVariable::deref` / `slice`, `VariableIR::deref` and `VariableIR::slice` read debuggee memory and are not modelled. The same goes for `parse_struct_variable`, `parse_array`, `parse_pointer`, `parse_inner`, and the specialized parsing of library types. Specialized nodes carry only the fields that matching, indexing, field access and the traversal inspect.
- `Parser.ParseCEnum` and `Parser.ParseRustEnum` take the discriminant as an already parsed node. They take the enumerators as a map, not the type table.
- `Literal::equal_with_*` (in `select.rs`) is not part of this model. A literal equals a value when it is the same constructor holding the same value, as the tests pin down.
- `Uuid::to_string` is not part of this model. `VariableIr.UuidText` writes the hyphenated lower-case form of the standard UUID text format.
- `Bfs.AssumeFieldAsRustEnum` returns the enumeration node itself. The source returns a clone of its `RustEnumVariable` record.
- ptrace, waitpid, signal delivery and register access are not performed. Their effects are recorded in `osLog`, or their results are parameters. A failing ptrace call (`?`) is not modelled, except in `read_memory_by_pid`, where a failed word read is the error result.
- `Memory.ReadMemoryByPid` requires `n < 2^63`. The source casts `read_n` to `isize`, and larger sizes cannot be allocated.
- `step_in`, `single_step_instruction`, `step_into`, `stepi`, `set_breakpoint_at_fn` and `set_breakpoint_at_line` are not modelled. They depend on the DWARF place index and on live single-stepping.
- The DWARF line-table walk (`find_place_from_pc`, `line.next()`), `find_function_by_pc` and the unwinder's `return_addr` are given to the commands as values.
- The event hooks (`on_trap`, `on_signal`, `on_exit`) and the user interface are not modelled. `continue_execution` is modelled over a finite sequence of events; the event that stops it, and anything after it, is ignored.
- `Driver.Debugger.StepOut`, `Driver.Debugger.StepOver`: a failing `set_breakpoint` or `remove_breakpoint` (the `?` inside `try_for_each`) is not modelled. `Driver.Debugger.RunThenRemove` and `Driver.Debugger.RunWithTemporaries` are not functions of the source: they are the tails of `step_out` (lines 372-376) and of `step_over` (lines 461-481), split out.
- `Queries.FieldUnsupported`: B-tree maps have no fields in the source, although the doc comment of `field` lists them. The model follows the code.
- `Queries.IndexArrayNegative` requires at most 2^63 items. A Rust vector cannot hold more, so `i as usize` of a negative index is out of range.
- `Breakpoint::new`, `enable` and `disable` are in `breakpoint.rs`, which is not part of this model. A new breakpoint is taken to be disabled until it is enabled. It is reduced to its address and enabled flag.
- `Breakpoints.RelocateTable`: when a file-address entry is relocated onto a key that already holds a relocated entry, the moved entry replaces it, as `insert` does. The model keeps that overwrite and proves nothing about which entry was lost.
- `Parser.KindWidth` states only that a width is at least 1. The exact widths are its definition, and they appear in `Parser.IntegerShapeMatchesDeclaration`.
- `into_global` and `relocate` wrap around modulo 2^64, as in a release build. A debug build panics on overflow instead; that panic is not modelled.
- `Debugee` (`src/debugger/debugee/mod.rs`) is reduced to the flag `inProgress` and the `mappingOffset`. The threads and the `/proc` mapping discovery are not modelled.
- `VariableIr.MatchLiteral`: the set arm (`HashSet`, `BTreeSet`) uses `SetLiteralMatches`, the one-to-one comparison, and not the greedy loop at lines 838-872 of `src/debugger/variable/mod.rs`. That loop is modelled as written by `VariableIr.GreedySetMatch` and `Matching.MatchSetLiteral`; see Findings.
- `Queries.Sliced`, `Queries.ArrayVariable.Slice`: these require `SliceInBounds`, the bounds under which `drain` does not panic (lines 233 and 237 of `src/debugger/variable/mod.rs`; `VariableIR::slice` at lines 640-650 passes the bounds on unchecked). The panic on other bounds is not modelled.
- `VariableIr.Name`: `name()` is built by `RenderRepr` in `render.rs` (imported at line 6 of `src/debugger/variable/mod.rs`), which is not part of this model. The model takes the `Display` text of the identity as the name.

## Findings

| source | as written | input that shows it | evidently intended | confidence | as-written member | corrected member |
|---|---|---|---|---|---|---|
| src/debugger/variable/mod.rs:838-872 | Set comparison is greedy: each item takes the first remaining literal it matches, else the first wildcard, and the sets are unequal as soon as an item finds neither. | The set `{(1,2), (1,3)}` against `[(1, _), (1, 2)]`. `(1,2)` takes `(1, _)`, then `(1,3)` finds neither `(1, 2)` nor a wildcard, so the answer is "unequal". Yet `(1,2)→(1,2)` and `(1,3)→(1,_)` is a valid one-to-one pairing. With the items stored in the other order the answer is "equal", so the result depends on hash iteration order. | The sets are equal when their items can be paired one-to-one with the literal's positions, each item matching its position or the position being a wildcard. That result is independent of item order. | not executed | VariableIr.GreedySetMatch, Matching.MatchSetLiteral, Matching.GreedySetMatchCounterexample | VariableIr.SetLiteralMatches, Matching.SetMatchIffAssignment, Matching.SetMatchIgnoresItemOrder |
