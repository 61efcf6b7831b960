# Verification of jank's runtime core

A Dafny model of the parts of the jank runtime and analyzer on which everything else leans, with proofs of what they
promise and of exactly where they do not keep it.

- **Lexical captures** (`LocalFrames`, `CaptureTheory`, `Analyzer`). Frames, bindings and capture maps are objects, as
  in the analyzer. A capture map is a cache in front of lexical lookup. The steps of analysis (open a frame, bind a
  local in the innermost frame, resolve a symbol, close the frame) form a state machine, and the methods of
  `Analyzer.Processor` take those steps. Going through captures finds what plain lookup finds in every reachable state.
  That is not always the nearest binder, because fns are also bound by their names; the exact condition and two concrete
  programs are given.
- **Strings and builders** (`StringLayout`, `ByteHeap`, `StringObjects`, `StringTheory`, `StringOperations`,
  `BuilderOperations`, `StringRuns`, `StringEffects`, `StringRuntime`). The 24-byte union is modelled byte by byte, the
  heap as blocks of bytes with explicit frees. `StringTheory` and its companions describe each operation as a function
  on whole worlds (heap, strings, builders) and prove that it is memory safe and refines the operation on plain values;
  `StringRuns` lifts this to runs, and `StringEffects` says what each operation does to blocks and representations. The
  methods of `StringRuntime.Runtime` change the objects and take one such step each.
- **Hashing** (`Words`, `Folds`, `XorDigits`, `Hash`). Machine words are integers with explicit wrap-around. Each mixer
  is a pipeline of steps, each step has an inverse, and the properties of the collection folds follow.
- **UTF-8** (`Utf8`, `Utf8Theory`). The cursor as a class, the loop of `reverse` over it, and the theory of both on all
  byte strings, not only on well-formed ones.
- **Search, replacement, comparison** (`Search`, `Replace`). The loops, against declarative descriptions of what they
  find and of how a string splits at a match.
- **Notes** (`StableSort`, `Notes`). Three stable sorts as one lexicographic sort.
- **JSON** (`Json`). Reading and writing as tree transformations, and the exact conditions under which a round trip, in
  either direction, is the identity.
- **NaN boxing** (`Boxing`, `Numbers`, `NumberHashes`). The three classes of words and their round trips; equality and
  comparison of references, including integers that are too large for a word, with doubles as multiples of the smallest
  positive one and the rounding of the conversion from integers written out; and which equal numbers hash equal.

## Where the code departs from its intent

Each has its lemma or method below, with the exact condition under which the intended property holds.

- A fn's own name is hidden by a local of that name outside it (`Analyzer.ShadowedByOuterLocal`), and by a capture of an
  enclosing fn of that name (`Analyzer.ShadowedRecursion`); `CaptureTheory.RunIsLexicalIffUnshadowed` has the condition.
- A cached hash survives assignment from characters, and stays behind in a moved-from string
  (`StringRuns.HashesStayIffNoneIsStale`, `StringRuns.AssignmentLeavesStaleHash`, `StringRuns.MoveLeavesStaleHash`).
- The fill constructor cuts sizes above 23 to their low byte (`StringOperations.FillIsExactIffSizeFitsInByte`).
- The substring constructor takes too much when position plus count wraps (`StringOperations.SubstrClampsIffNoWrap`),
  and may then turn a small source into a shared one (`StringOperations.WrappedSubstrPath`).
- `compare` narrows a length difference to 32 bits (`Search.CompareIsLexicographicIffDifferenceFits`,
  `Search.OrdersStringsIff`).
- The two forms of `unordered` start from different seeds and so differ on every input
  (`Hash.UnorderedFormsAlwaysDiffer`).
- `integer` maps zero to zero unmixed, where it meets one other word (`Hash.IntegerU32CollidesOnce`).
- Negative quiet NaNs are not stored as reals, and may be taken for integers or pointers (`Boxing.RealsAreKeptIff`,
  `Boxing.TaggedWordsAreNegativeQuietNaNs`).
- `compare` finds no difference between a large integer and the real it rounds to, while `equal` denies them equal; and
  it is not transitive there (`Numbers.CompareAgreesWithEqualIff`, `Numbers.LargeIntegersAreConfused`).
- Numbers that are `equal` do not always hash equal (`NumberHashes.SameKindHashesEqualIff`,
  `NumberHashes.ZeroHashesEqualIff`, `NumberHashes.MixedHashesEqualIff`, `NumberHashes.OneHashesUnlikeItsReal`).
- Two rounds of reading and writing JSON may do more than one (`Json.SecondRoundIsIdentityIffSettles`).

`dafny verify dfyconfig.toml` checks the whole project.

## Model

| member | source | states |
|---|---|---|
| `LocalFrames.LocalFrame.FindLocalImpl` | compiler+runtime/src/cpp/jank/analyze/local_frame.cpp:47-86 | The outward loop computes lexical lookup: the last binding of the nearest frame that has the name, or the nearest capture if captures count, with the fns left on the way, innermost first |
| `LocalFrames.LocalFrame.FindNamedRecursion` | compiler+runtime/src/cpp/jank/analyze/local_frame.cpp:129-156 | The loop finds the innermost enclosing fn of that name and the fns left on the way |
| `LocalFrames.LocalFrame.RegisterCaptures` | compiler+runtime/src/cpp/jank/analyze/local_frame.cpp:94-113 | Every crossed fn ends up with a capture of the name, marked boxed and taken by value: a new copy of the found binding, or the entry that was there; no other entry changes |
| `LocalFrames.LocalFrame.Emplace` | compiler+runtime/src/cpp/jank/analyze/local_frame.cpp:98-100 | A name that is already captured is left alone |
| `CaptureTheory.CapturesAgreeWithScoping` | compiler+runtime/src/cpp/jank/analyze/local_frame.cpp:47-92 | From every open frame, the lookup through captures succeeds where the plain one does, and the chain of originating bindings ends at the very local the plain one finds; where the plain one fails, a capture can only stand for an enclosing fn of the name |
| `CaptureTheory.BindHidesEarlier` | compiler+runtime/src/cpp/jank/analyze/local_frame.cpp:55-61 | A new local is what its name finds from its frame, whatever was found before, an earlier local of the same frame included |
| `CaptureTheory.BindKeepsOthers` | compiler+runtime/src/cpp/jank/analyze/local_frame.cpp:47-86 | Other names, and all names from frames outside, are found as before |
| `CaptureTheory.OpenLooksThrough` | compiler+runtime/src/cpp/jank/analyze/local_frame.cpp:47-86 | From a new frame everything is found that was found from the frame around it; a new fn is the first one crossed, other frames are not crossed |
| `CaptureTheory.OpenNamesTheFn` | compiler+runtime/src/cpp/jank/analyze/local_frame.cpp:129-156 | A new fn is found by its own name from its frame; other names lead to the fns around it, past it |
| `CaptureTheory.ResolveKeepsOthers` | compiler+runtime/src/cpp/jank/analyze/local_frame.cpp:94-113 | Capturing a symbol changes no lookup of another one, nor any plain lookup |
| `CaptureTheory.NothingIsFoundInitially` | compiler+runtime/src/cpp/jank/analyze/local_frame.cpp:41-86 | From the root frame alone nothing is found |
| `CaptureTheory.StepKeepsInv` | compiler+runtime/src/cpp/jank/analyze/local_frame.cpp:47-127 | Opening a frame, binding, looking up with registration, and closing keep the invariant behind the two results |
| `CaptureTheory.CapturesAgreeInEveryRun` | compiler+runtime/src/cpp/jank/analyze/local_frame.cpp:47-113 | The agreement with plain lookup in every state that any steps from the root frame reach, shadowing included; a capture found where plain lookup finds nothing stands for an enclosing fn of the name |
| `CaptureTheory.CapturesAreClosedUpward` | compiler+runtime/src/cpp/jank/analyze/local_frame.cpp:94-113 | If a fn, open or closed, captures a local, a lookup from its parent finds the symbol and crosses no fn; if it captures a reference by name, the fn around it has a local or capture of the name or is itself the fn referred to |
| `CaptureTheory.RepeatedLookupCrossesNothing` | compiler+runtime/src/cpp/jank/analyze/local_frame.cpp:88-127 | After lookup and registration the same lookup crosses no fn and ends at the capture of the innermost crossed fn |
| `CaptureTheory.CrossedFnsLackTheSymbol` | compiler+runtime/src/cpp/jank/analyze/local_frame.cpp:57-77 | A crossed fn has the symbol neither as local nor as capture, so every registration makes a new entry |
| `CaptureTheory.AnalyzedMeaningIsLexicalIffUnshadowed` | compiler+runtime/src/cpp/jank/analyze/local_frame.cpp:47-156 | With the nearest binder, frame by frame, as the reference: a symbol is read lexically exactly when no fn that bears the name is left on the way to the local that is found, or without a local, on the way to the captured recursion |
| `CaptureTheory.LocalIsNearestIffNoneNamed` | compiler+runtime/src/cpp/jank/analyze/local_frame.cpp:47-86 | The local that plain lookup finds is the nearest binder exactly when no crossed fn bears the name |
| `CaptureTheory.RunIsLexicalIffUnshadowed` | compiler+runtime/src/cpp/jank/analyze/processor.cpp:1712-1783 | A whole run reads every symbol lexically if and only if none of its lookups is shadowed in one of these two ways |
| `CaptureTheory.InitialIsFaithful` | compiler+runtime/src/cpp/jank/analyze/local_frame.cpp:41-45 | The root frame alone meets what the results on runs ask of their first state |
| `CaptureTheory.ClosestFnIsInnermost` | compiler+runtime/src/cpp/jank/analyze/local_frame.cpp:158-172 | The closest fn frame encloses the frame, and every fn that encloses the frame encloses it |
| `CaptureTheory.WithinSameFnIffSameFnsEnclose` | compiler+runtime/src/cpp/jank/analyze/local_frame.cpp:180-183 | Under one root, two frames are within the same fn exactly when the same fns enclose them |
| `CaptureTheory.WithinSameFnInEveryRun` | compiler+runtime/src/cpp/jank/analyze/local_frame.cpp:180-183 | So in every state that any steps from the root frame reach, where there is only that root |
| `Analyzer.Processor.AnalyzeSymbol` | compiler+runtime/src/cpp/jank/analyze/processor.cpp:1695-1786 | A symbol takes one step of the machine, is refused only when a local that cannot be copied would be captured, and is otherwise resolved as the theory says and found again without crossing a fn; the box, the usage flags of both bindings and the mark of a named-recursive fn are as the code leaves them |
| `Analyzer.Processor.Bind` | compiler+runtime/src/cpp/jank/analyze/processor.cpp:1909 | A new local goes behind the earlier ones of its name in the innermost frame, and is then what the name finds |
| `Analyzer.MarkedMeans` | compiler+runtime/src/cpp/jank/analyze/local_frame.cpp:99-111 | A marked capture is boxed, is not yet used unboxed, and has no reference type |
| `Analyzer.ShadowedRecursion` | compiler+runtime/src/cpp/jank/analyze/local_frame.cpp:115-156 | Departure: after `(fn f [] (fn g [] (f) (fn f [] (f))))` the inner reference means the outer fn |
| `Analyzer.ShadowedByOuterLocal` | compiler+runtime/src/cpp/jank/analyze/processor.cpp:1712-1783 | Departure: in `(let [f 1] (fn f [] f))` the inner reference means the local, not the fn |
| `StringLayout.InitSmallDecodes` | compiler+runtime/include/cpp/jtl/immutable_string.hpp:744-793 | What is stored small is read back, terminated, whatever bytes were in the union |
| `StringLayout.InitLargeDecodes` | compiler+runtime/include/cpp/jtl/immutable_string.hpp:680-696 | Pointer, size and category written to a large union are read back |
| `StringLayout.LargeLayout` | compiler+runtime/include/cpp/jtl/immutable_string.hpp:680-696 | Byte by byte: the pointer and then the size, little-endian, and the category in the last byte |
| `StringLayout.SmallLayout` | compiler+runtime/include/cpp/jtl/immutable_string.hpp:744-793 | Byte by byte: the characters, a zero, and the remaining capacity in the last byte |
| `StringLayout.SetSharedDecodes` | compiler+runtime/include/cpp/jtl/immutable_string.hpp:680-690 | Flipping a large string to shared keeps its pointer and size |
| `StringRuns.ApplyRefines` | compiler+runtime/include/cpp/jtl/immutable_string.hpp:74-254 | Every operation keeps memory safe and has on all strings and builders the effect it would have on plain values |
| `StringRuns.RunRefines` | compiler+runtime/include/cpp/jtl/immutable_string.hpp:74-254 | Main result: through every run of constructing, filling, copying, moving, assigning, slicing, re-owning, hashing, destroying and building, strings and builders hold what plain values would |
| `StringRuns.RunKeepsStringsLive` | compiler+runtime/include/cpp/jtl/immutable_string.hpp:720-728 | After every run no string points at freed bytes, and an owned one is terminated |
| `StringRuns.RunKeepsOwnersAlone` | compiler+runtime/include/cpp/jtl/immutable_string.hpp:720-728 | After every run no string reaches into a block that another one owns |
| `StringRuns.RunKeepsStringsOutOfBuffers` | compiler+runtime/src/cpp/jtl/string_builder.cpp:53-57 | After every run no string reaches into a buffer that a builder holds |
| `StringRuns.RunKeepsBuffersApart` | compiler+runtime/src/cpp/jtl/string_builder.cpp:53-57 | After every run the buffers of two builders share no address |
| `StringRuns.OtherStringsKeepTheirValue` | compiler+runtime/include/cpp/jtl/immutable_string.hpp:74-193 | An operation changes the value of no string it is not about, although it may flip or free shared blocks |
| `StringRuns.RunKeepsBuilderBounds` | compiler+runtime/src/cpp/jtl/string_builder.cpp:18-40 | After every run a builder, unless freshly released, has a live buffer with room for a terminator, its capacity is a power of two, and all reallocations since the last release moved fewer bytes than the capacity |
| `ByteHeap.LiveAddresses` | compiler+runtime/include/cpp/jtl/immutable_string.hpp:720-728 | After an allocation the new addresses are live besides the old ones, after a free exactly those outside the block are |
| `StringEffects.BlocksAfter` | compiler+runtime/include/cpp/jtl/immutable_string.hpp:720-728 | Exactly the blocks that the target owned, or the builder held and outgrew or is dropped with, are freed, and exactly where the text does not fit in place a block is made |
| `StringEffects.RepsAfter` | compiler+runtime/include/cpp/jtl/immutable_string.hpp:74-254 | What every string is afterwards: small up to 23 characters, copies and their sources shared, slices shared unless more than 512 shorter, a re-owned string owned, and all others as they were |
| `StringEffects.BuildersAfter` | compiler+runtime/src/cpp/jtl/string_builder.cpp:427-473 | What clearing, releasing and making a builder leave of position, capacity and buffer, and that other operations leave builders alone |
| `StringEffects.AppendedBuilder` | compiler+runtime/src/cpp/jtl/string_builder.cpp:18-40 | Appending advances the position, and grows the buffer to the least sufficient power of two exactly when the text and one more byte do not fit, counting the old capacity as moved |
| `StringEffects.ReservedBuilder` | compiler+runtime/src/cpp/jtl/string_builder.cpp:432-438 | Reserving does so exactly when the capacity is below what is asked for |
| `StringRuns.SubstrYieldsClamped` | compiler+runtime/include/cpp/jtl/immutable_string.hpp:162-193 | On all three paths the substring is the clamped slice, provided position and count do not wrap |
| `StringOperations.SubstrClampsIffNoWrap` | compiler+runtime/include/cpp/jtl/immutable_string.hpp:170-173 | Departure: the count is clamped exactly when position plus count does not wrap; otherwise it reaches beyond the string |
| `StringOperations.WrappedSubstrPath` | compiler+runtime/include/cpp/jtl/immutable_string.hpp:175-191 | Departure: in that case the source is flipped to shared exactly when length minus count, modulo 2^64, is at most 512 (and the count above 23), and any storage that is flipped, a small one too, then reads as shared |
| `StringOperations.FillIsExactIffSizeFitsInByte` | compiler+runtime/include/cpp/jtl/immutable_string.hpp:851-862 | Departure: a string made by size and character has that size exactly when it is below 256 |
| `StringOperations.FilledSizeIs` | compiler+runtime/include/cpp/jtl/immutable_string.hpp:851-862 | Above 23, the size is what remains of it modulo 256 |
| `StringOperations.BitCeilIsLeast` | compiler+runtime/src/cpp/jtl/string_builder.cpp:18-25 | The capacity is the least power of two that is large enough |
| `StringRuns.HashesStayIffNoneIsStale` | compiler+runtime/include/cpp/jtl/immutable_string.hpp:505-537 | Given agreeing caches, they still agree after an operation if and only if it is neither a move from a hashed string nor an assignment of characters, with another base-31 polynomial, to one |
| `StringRuns.AssignmentLeavesStaleHash` | compiler+runtime/include/cpp/jtl/immutable_string.hpp:505-537 | Departure, from the empty world: a one-byte string that was hashed keeps that hash when set to the empty one |
| `StringRuns.MoveLeavesStaleHash` | compiler+runtime/include/cpp/jtl/immutable_string.hpp:85-89 | Departure, from the empty world: it keeps that hash when moved from |
| `StringRuns.RunKeepsHashes` | compiler+runtime/include/cpp/jtl/immutable_string.hpp:648-662 | In every run without such steps each cached hash is absent or the hash of the contents |
| `StringRuns.HashesAgreeThroughoutIff` | compiler+runtime/include/cpp/jtl/immutable_string.hpp:648-662 | From agreeing caches, they agree after every operation of a run if and only if none of its steps is such |
| `StringRuns.EqualStringsHashEqual` | compiler+runtime/include/cpp/jtl/immutable_string.hpp:648-662 | Strings with equal contents hash equal in any representation, cached or not |
| `StringTheory.PolynomialIsBase31` | compiler+runtime/include/cpp/jtl/immutable_string.hpp:656-661 | What is hashed of a string is the base-31 number of its bytes, the first the most significant, modulo 2^32 |
| `StringRuntime.Runtime.Construct` | compiler+runtime/include/cpp/jtl/immutable_string.hpp:111-121 | The construction from characters takes the step of the machine on the real 24 bytes and heap |
| `StringRuntime.Runtime.Fill` | compiler+runtime/include/cpp/jtl/immutable_string.hpp:140-150 | The construction from a size and a character, with the narrowed size |
| `StringRuntime.Runtime.Copy` | compiler+runtime/include/cpp/jtl/immutable_string.hpp:74-83 | Copying flips the source to shared and takes over its cached hash |
| `StringRuntime.Runtime.Move` | compiler+runtime/include/cpp/jtl/immutable_string.hpp:85-89 | Moving empties the source and leaves its cached hash behind |
| `StringRuntime.Runtime.Assign` | compiler+runtime/include/cpp/jtl/immutable_string.hpp:486-503 | Copy assignment frees an owned block first and does nothing on itself |
| `StringRuntime.Runtime.AssignBytes` | compiler+runtime/include/cpp/jtl/immutable_string.hpp:505-537 | Assignment from characters keeps the cached hash |
| `StringRuntime.Runtime.Substr` | compiler+runtime/include/cpp/jtl/immutable_string.hpp:162-193 | Throws for a position outside the string, otherwise takes the substring step |
| `StringRuntime.Runtime.CStr` | compiler+runtime/include/cpp/jtl/immutable_string.hpp:236-254 | A shared string gets its own terminated block; the result points at the text with a zero byte at index size |
| `StringRuntime.Runtime.ToHash` | compiler+runtime/include/cpp/jtl/immutable_string.hpp:648-662 | The loop that accumulates in the cached field computes the mixed base-31 polynomial of the contents |
| `StringRuntime.Runtime.Destroy` | compiler+runtime/include/cpp/jtl/immutable_string.hpp:720-728 | Only an owned block is freed |
| `StringRuntime.Runtime.MaybeRealloc` | compiler+runtime/src/cpp/jtl/string_builder.cpp:18-34 | Growing makes the buffer the least sufficient power of two and keeps the text |
| `StringRuntime.Runtime.Append` | compiler+runtime/src/cpp/jtl/string_builder.cpp:258-305 | Appending takes the step that puts the bytes behind the text |
| `StringRuntime.Runtime.AppendString` | compiler+runtime/src/cpp/jtl/string_builder.cpp:258-305 | Appending a string appends its contents, wherever they are kept |
| `StringRuntime.Runtime.Clear` | compiler+runtime/src/cpp/jtl/string_builder.cpp:427-430 | Clearing empties the text and keeps the buffer |
| `StringRuntime.Runtime.Reserve` | compiler+runtime/src/cpp/jtl/string_builder.cpp:432-438 | Reserving changes no text |
| `StringRuntime.Runtime.Release` | compiler+runtime/src/cpp/jtl/string_builder.cpp:455-473 | A short text is copied out and its buffer dropped, a longer one is handed over with its buffer |
| `StringRuntime.Runtime.DropBuilder` | compiler+runtime/src/cpp/jtl/string_builder.cpp:53-57 | A buffer that was not released is freed |
| `Words.RotateLeftIsInvertible` | compiler+runtime/src/cpp/jank/hash.cpp:12-15 | Rotating left by r and then by 32 - r is the identity |
| `Hash.FmixIsBijective` | compiler+runtime/src/cpp/jank/hash.cpp:22-31 | `fmix` has an inverse, which is given |
| `Hash.MixK1IsBijective` | compiler+runtime/src/cpp/jank/hash.cpp:44-50 | `mix_k1` has an inverse, which is given |
| `Hash.MixH1IsBijectiveInEachArgument` | compiler+runtime/src/cpp/jank/hash.cpp:52-58 | `mix_h1` can be undone in each argument when the other is known, and is onto in each |
| `Hash.MixCollectionHashIsInjective` | compiler+runtime/src/cpp/jank/hash.cpp:60-65 | Injective in the hash for a fixed length and in the length for a fixed hash |
| `Hash.MixCollectionHitsIff` | compiler+runtime/src/cpp/jank/hash.cpp:60-65 | Undone for each length by the same inverses |
| `Hash.IntegerU32CollidesOnce` | compiler+runtime/src/cpp/jank/hash.cpp:72-83 | `integer` of 32 bits has exactly one collision: zero, which is mapped to zero unmixed, meets the one word that mixes to zero |
| `Hash.IntegerU32HitsIff` | compiler+runtime/src/cpp/jank/hash.cpp:72-83 | For nonzero words the hash is undone by the inverses of all four mixing steps, in order |
| `Hash.IntegerU64SeparatesHalves` | compiler+runtime/src/cpp/jank/hash.cpp:85-102 | Nonzero 64-bit inputs that differ in one half only never collide |
| `Hash.IntegerU64HitsIff` | compiler+runtime/src/cpp/jank/hash.cpp:85-102 | For each upper half, every hash is met by exactly one lower half, which is given, zero apart |
| `Hash.OrderedSeparatesOnePosition` | compiler+runtime/include/cpp/jank/hash.hpp:47-60 | Changing one element hash changes the ordered hash, in sequences of any length |
| `Hash.OrderedSeparatesNeighbours` | compiler+runtime/include/cpp/jank/hash.hpp:47-60 | Swapping neighbours changes it unless their hashes are equal or differ in the top bit alone |
| `Hash.OrderedHashIsBase31` | compiler+runtime/include/cpp/jank/hash.hpp:47-60 | It mixes the base-31 number of the element hashes behind a leading 1, modulo 2^32, with their number |
| `Hash.Ordered` | compiler+runtime/include/cpp/jank/hash.hpp:47-60 | The iterator loop computes the ordered hash of the element hashes |
| `Hash.OrderedObject` | compiler+runtime/src/cpp/jank/hash.cpp:168-186 | The object form, with a loop of its own, computes the same hash, or the object's own when it is no sequence |
| `Hash.UnorderedIgnoresOrder` | compiler+runtime/include/cpp/jank/hash.hpp:62-85 | All arrangements of the same element hashes get the same hash, in either form |
| `Hash.UnorderedHashIsSum` | compiler+runtime/include/cpp/jank/hash.hpp:62-85 | It mixes the sum of the element hashes and the start value, modulo 2^32, with their number |
| `Hash.UnorderedSeparatesOnePosition` | compiler+runtime/include/cpp/jank/hash.hpp:62-85 | Changing one element hash changes the result |
| `Hash.EntryHashIsBase31` | compiler+runtime/include/cpp/jank/hash.hpp:73-79 | A map entry contributes 31 times the hash of its key plus that of its value |
| `Hash.EntriesSeparateOnePosition` | compiler+runtime/include/cpp/jank/hash.hpp:62-85 | Changing the hash of one key or of one value changes the hash of a map; exchanging them does unless they are equal or differ in the top bit alone |
| `Hash.UnorderedFormsAlwaysDiffer` | compiler+runtime/src/cpp/jank/hash.cpp:188-206 | Departure: the object form, which starts at 1, differs from the iterator form on every input |
| `Hash.Unordered` | compiler+runtime/include/cpp/jank/hash.hpp:62-85 | The iterator loop, which starts at 0, computes the unordered hash |
| `Hash.UnorderedEntries` | compiler+runtime/include/cpp/jank/hash.hpp:62-85 | The loop over map entries does so for the hashes of the entries |
| `Hash.UnorderedObject` | compiler+runtime/src/cpp/jank/hash.cpp:188-206 | The object form computes the unordered hash started at 1 |
| `Utf8.PrevCharSize` | compiler+runtime/src/cpp/jtl/utf8.cpp:48-70 | The distance to the nearest of the last four bytes that is no continuation; none is found exactly when all of them, as far as the string goes, are continuations |
| `Utf8.PrevCharSizeIsLastStart` | compiler+runtime/src/cpp/jtl/utf8.cpp:38-70 | On every string it is the distance to the start of the last character, if that is a lead and at most four bytes back |
| `Utf8.Utf8Iterator.Increment` | compiler+runtime/src/cpp/jtl/utf8.cpp:91-113 | Where the cursor goes, when it throws and what a throw leaves behind |
| `Utf8.Utf8Iterator.Decrement` | compiler+runtime/src/cpp/jtl/utf8.cpp:122-141 | Where the cursor goes, when it throws, and that a throw changes nothing |
| `Utf8.Reverse` | compiler+runtime/src/cpp/clojure/string_native.cpp:24-32 | Reverses by character exactly the strings that are empty or begin with a proper lead and have no four continuation bytes in a row; throws on all others |
| `Utf8Theory.IncrementIsUndone` | compiler+runtime/src/cpp/jtl/utf8.cpp:91-141 | At every character of a well-formed string, and at the end, an increment succeeds and a decrement restores position and size |
| `Utf8Theory.DecrementIsUndone` | compiler+runtime/src/cpp/jtl/utf8.cpp:91-141 | Likewise a decrement is undone by an increment, through the wrap-around as well |
| `Utf8Theory.WalksBothWaysIffWellFormed` | compiler+runtime/src/cpp/jtl/utf8.cpp:72-141 | A nonempty string can be walked from the beginning with every step undone if and only if it consists of complete characters |
| `Utf8Theory.WalkYieldsEveryByte` | compiler+runtime/src/cpp/jtl/utf8.cpp:86-113 | Any walk that reaches the end has yielded the whole string in order, well formed or not |
| `Utf8Theory.WalkYieldsCharacters` | compiler+runtime/src/cpp/jtl/utf8.cpp:86-113 | On a well-formed string the walk visits exactly its characters |
| `Utf8Theory.ReverseOfWellFormed` | compiler+runtime/src/cpp/clojure/string_native.cpp:24-32 | A well-formed string is reversed to what the increments visit, backwards; the result is well formed, as long, and reverses to the original |
| `Utf8Theory.ReverseTwiceIffLastLeadIsProper` | compiler+runtime/src/cpp/clojure/string_native.cpp:24-32 | On every string that can be reversed nothing is lost, and the result can be reversed again exactly when the last character has a proper lead |
| `Utf8Theory.EncodingIsCharacter` | compiler+runtime/src/cpp/jtl/utf8.cpp:13-36 | The lead sizes agree with the encoding of every code point in section 3 of RFC 3629 |
| `Utf8Theory.LeadsAre` | compiler+runtime/src/cpp/jtl/utf8.cpp:13-46 | Which bytes lead one to four, which continue, and that those from 0xF8 on do neither |
| `Utf8Theory.EmptyTextCursor` | compiler+runtime/src/cpp/jtl/utf8.cpp:91-141 | The cursor on the empty string |
| `Utf8Theory.ReverseOfCodePoints` | compiler+runtime/src/cpp/clojure/string_native.cpp:24-32 | The UTF-8 text of any code points can be reversed, and becomes the text of the code points in reverse order |
| `Search.Find` | compiler+runtime/include/cpp/jtl/immutable_string.hpp:281-320 | The least index from the position on where the pattern occurs; `npos` exactly when there is none |
| `Search.FindByte` | compiler+runtime/include/cpp/jtl/immutable_string.hpp:322-338 | The same for one character |
| `Search.RFind` | compiler+runtime/include/cpp/jtl/immutable_string.hpp:352-381 | The greatest index up to the position where the pattern occurs; `npos` exactly when there is none |
| `Search.RFindByte` | compiler+runtime/include/cpp/jtl/immutable_string.hpp:383-402 | The same for one character |
| `Search.FirstIsUnique` | compiler+runtime/include/cpp/jtl/immutable_string.hpp:281-320 | What `find` promises determines its result |
| `Search.Compare` | compiler+runtime/include/cpp/jtl/immutable_string.hpp:576-585 | The sign of the result is the lexicographic order if and only if neither string begins with the other or the length difference keeps its sign in 32 bits |
| `Search.CompareIsLexicographicIffDifferenceFits` | compiler+runtime/include/cpp/jtl/immutable_string.hpp:576-585 | So for all pairs of strings, and without exception below 2^31 bytes |
| `Search.OrdersStringsIff` | compiler+runtime/include/cpp/jtl/immutable_string.hpp:576-585 | Being less in `compare` is a strict weak order on all strings of up to n bytes exactly when n is below 2^31 |
| `Search.CompareConfusesLongStrings` | compiler+runtime/include/cpp/jtl/immutable_string.hpp:583 | Departure: a string of 2^32 bytes compares equal to the empty one |
| `Search.LexicographicIsTransitive` | compiler+runtime/include/cpp/jtl/immutable_string.hpp:576-585 | The order that is met is transitive |
| `Search.LexicographicIsAntisymmetric` | compiler+runtime/include/cpp/jtl/immutable_string.hpp:576-585 | It is antisymmetric and calls only equal strings equal |
| `Search.FirstDifferenceDecides` | compiler+runtime/include/cpp/jtl/immutable_string.hpp:576-585 | In it the smaller of the first two different bytes comes first, and a beginning before what it begins |
| `Search.CompareOfFirstDifference` | compiler+runtime/include/cpp/jtl/immutable_string.hpp:576-585 | And `compare` is negative then |
| `Replace.ReplaceAll` | compiler+runtime/src/cpp/clojure/string_native.cpp:164-209 | The loop joins, with the replacement, the pieces between the leftmost non-overlapping occurrences |
| `Replace.Interleave` | compiler+runtime/src/cpp/clojure/string_native.cpp:171-181 | An empty match puts the replacement around every byte |
| `Replace.EmptyMatchAt` | compiler+runtime/src/cpp/clojure/string_native.cpp:171-181 | By position: |s| + 1 copies of the replacement, each |r| + 1 behind the one before, and the i-th byte behind the i-th of them |
| `Replace.EmptyMatchAppends` | compiler+runtime/src/cpp/clojure/string_native.cpp:171-181 | One more byte adds the byte and then the replacement |
| `Replace.ReplaceFirst` | compiler+runtime/src/cpp/clojure/string_native.cpp:49-76 | What `find` finds is cut out and the replacement put there; the pieces behind keep the match between them |
| `Replace.SplitIsASplit` | compiler+runtime/src/cpp/clojure/string_native.cpp:194-203 | The pieces joined by the match give the string, no piece brings an earlier occurrence, and the last has none |
| `Replace.ReplacedJoinsTheSplit` | compiler+runtime/src/cpp/clojure/string_native.cpp:164-209 | However such a split is given, replacing joins its pieces with the replacement: it is the only one |
| `Replace.ReplacedLength` | compiler+runtime/src/cpp/clojure/string_native.cpp:164-209 | The length grows by the difference of the two lengths for each of the replaced occurrences |
| `Replace.ReplacingByItselfIsIdentity` | compiler+runtime/src/cpp/clojure/string_native.cpp:164-209 | Replacing a match by itself changes nothing, an empty match included |
| `Replace.ReplacedUnchangedIff` | compiler+runtime/src/cpp/clojure/string_native.cpp:187-190 | The string is unchanged exactly when the match does not occur or is replaced by itself |
| `Replace.ReplacingBytesBackIff` | compiler+runtime/src/cpp/clojure/string_native.cpp:164-209 | Replacing one byte by another can be taken back exactly when the new one was not there before |
| `Replace.Trim` | compiler+runtime/src/cpp/clojure/string_native.cpp:337-353 | Takes only spaces off the ends and leaves none there |
| `Replace.TrimIsUnique` | compiler+runtime/src/cpp/clojure/string_native.cpp:271-353 | No other piece of the string can be described so |
| `Replace.SpacesAre` | compiler+runtime/src/cpp/clojure/string_native.cpp:277-283 | The six characters that count as spaces |
| `Notes.Base.SortNotes` | compiler+runtime/src/cpp/jank/error.cpp:695-706 | The notes end up stably sorted by file, line and column, none lost, provided `compare` is right about their file names |
| `Notes.ThreeSortsAreOne` | compiler+runtime/src/cpp/jank/error.cpp:695-706 | Any three stable sorts of such notes by column, line and file amount to one stable sort by all three |
| `Notes.SortedNotesAreUnique` | compiler+runtime/src/cpp/jank/error.cpp:692-694 | Only one arrangement of the notes is such a sort |
| `Notes.SortedNotesAscend` | compiler+runtime/src/cpp/jank/error.cpp:692-706 | In the result files ascend, in one file start lines, and in one line start columns |
| `Notes.KeysAreOrders` | compiler+runtime/src/cpp/jank/error.cpp:697-705 | Columns, lines and file names in lexicographic order are strict weak orders |
| `Notes.ByFileAgrees` | compiler+runtime/src/cpp/jank/error.cpp:703-705 | The comparison of file names is that order among names of which none begins with another in a way that `compare` gets wrong |
| `StableSort.SortingTwice` | compiler+runtime/src/cpp/jank/error.cpp:697-705 | Sorting by a minor order and then by a major one is sorting lexicographically |
| `StableSort.StableSortIsUnique` | compiler+runtime/src/cpp/jank/error.cpp:697-705 | A stable sort is determined by its order |
| `StableSort.SortedIsStableSort` | compiler+runtime/src/cpp/jank/error.cpp:697-705 | A stable sort exists |
| `StableSort.StableSortKeepsElements` | compiler+runtime/src/cpp/jank/error.cpp:697-705 | A stable sort has the same elements |
| `Json.ReadTree` | compiler+runtime/src/cpp/clojure/data/json_native.cpp:133-197 | The loops read a tree in whatever order members come, or fail exactly when it contains binary data |
| `Json.WriteValue` | compiler+runtime/src/cpp/clojure/data/json_native.cpp:42-122 | The loops write a value likewise, or fail exactly when it contains something unsupported |
| `Json.ReadAtPath` | compiler+runtime/src/cpp/clojure/data/json_native.cpp:133-197 | Along every path of indices and names is what was read from there, and nothing where a null member was |
| `Json.WriteAtPath` | compiler+runtime/src/cpp/clojure/data/json_native.cpp:42-122 | Along every path is what was written from there, and nothing where an entry was nil |
| `Json.ReadOfScalars` | compiler+runtime/src/cpp/clojure/data/json_native.cpp:137-154 | Scalars are read as they are; an integer beyond the signed range comes out 2^64 less |
| `Json.WriteOfScalars` | compiler+runtime/src/cpp/clojure/data/json_native.cpp:50-63 | Scalars are written as they are |
| `Json.WriteOfMap` | compiler+runtime/src/cpp/clojure/data/json_native.cpp:89-104 | A map is written as null exactly when it has no entry but nil, and otherwise under the same names |
| `Json.ReadableIff` | compiler+runtime/src/cpp/clojure/data/json_native.cpp:186-187 | A tree can be read exactly when no path leads to binary data |
| `Json.WritableIff` | compiler+runtime/src/cpp/clojure/data/json_native.cpp:118-119 | A value can be written exactly when no path leads to something unsupported |
| `Json.WriteAfterRead` | compiler+runtime/src/cpp/clojure/data/json_native.cpp:42-197 | Writing what was read prunes the tree: null members go and objects without others become null |
| `Json.WriteAfterReadIsIdentityIffClean` | compiler+runtime/src/cpp/clojure/data/json_native.cpp:42-197 | It is the identity exactly on trees with no null member, no empty object and no integer beyond 64 signed bits |
| `Json.SecondRoundIsIdentityIffSettles` | compiler+runtime/src/cpp/clojure/data/json_native.cpp:89-104 | A second round changes something exactly when some member was an object that turned into null in the first |
| `Json.ReadAfterWrite` | compiler+runtime/src/cpp/clojure/data/json_native.cpp:42-197 | Reading what was written trims the value: entries that are nil or turn into nil go |
| `Json.ReadAfterWriteIsIdentityIffTidy` | compiler+runtime/src/cpp/clojure/data/json_native.cpp:42-197 | It is the identity exactly on values with no nil entry and no empty map |
| `Boxing.IntegersAreKept` | compiler+runtime/include/cpp/jank/runtime/oref.hpp:135-139 | Tagging and untagging small integers are inverse, both ways |
| `Boxing.IntegerLayout` | compiler+runtime/include/cpp/jank/runtime/oref.hpp:186-191 | 0xFFF9 and zeros on top, and the integer modulo 2^32 below |
| `Boxing.PointersAreKept` | compiler+runtime/include/cpp/jank/runtime/oref.hpp:141-146 | The same for aligned 48-bit pointers |
| `Boxing.PointerLayout` | compiler+runtime/include/cpp/jank/runtime/oref.hpp:199-208 | 0xFFFA on top, and the address below |
| `Boxing.ClassesAreDisjoint` | compiler+runtime/include/cpp/jank/runtime/oref.hpp:93-127 | No word is in two classes, and the words in none are three ranges |
| `Boxing.RealsAreKeptIff` | compiler+runtime/include/cpp/jank/runtime/oref.hpp:113-117 | Departure: a double is kept as a real exactly when it is not a negative quiet NaN |
| `Boxing.TaggedWordsAreNegativeQuietNaNs` | compiler+runtime/include/cpp/jank/runtime/oref.hpp:98-108 | All words that stand for integers and pointers are doubles of that kind |
| `Numbers.ReferencesAreNilOrSome` | compiler+runtime/include/cpp/jank/runtime/oref.hpp:362-401 | Every reference is in exactly one class, and is some exactly when it is not nil, which is when its type is not that of nil |
| `Numbers.TypesTellApart` | compiler+runtime/include/cpp/jank/runtime/oref.hpp:388-400 | The type of a reference tells inline numbers and the kinds of objects apart |
| `Numbers.ResetIsNil` | compiler+runtime/include/cpp/jank/runtime/oref.hpp:293-301 | What a reference is reset to is nil, and no inline number is |
| `Numbers.NonNegativeDoublesCompareAsWords` | compiler+runtime/include/cpp/jank/runtime/oref.hpp:129-133 | Bits read as doubles that are not negative are in the order of the bits |
| `Numbers.DoublesCompareAsWords` | compiler+runtime/include/cpp/jank/runtime/oref.hpp:838-873 | All doubles compare by sign and magnitude of their bits, the zeros as one and NaN with nothing |
| `Numbers.CompareIsNumeric` | compiler+runtime/include/cpp/jank/runtime/oref.hpp:838-892 | All nine branches of `compare` agree with the built-in `<` on the numbers, inline or in objects |
| `Numbers.IntegersCompareAsIntegers` | compiler+runtime/include/cpp/jank/runtime/oref.hpp:838-892 | Integers compare as such wherever they are kept: -1 for less, 1 for greater |
| `Numbers.RealsCompareAsWords` | compiler+runtime/include/cpp/jank/runtime/oref.hpp:853-873 | Inline reals compare by their bits, with no difference found from NaN |
| `Numbers.CompareWithNil` | compiler+runtime/include/cpp/jank/runtime/oref.hpp:838-892 | Nil comes before all else, and only nil can be compared to it |
| `Numbers.EqualIsNumeric` | compiler+runtime/include/cpp/jank/runtime/oref.hpp:402-444 | `equal` is numeric equality, except that an integer and a real are never equal when one of them is kept in an object |
| `Numbers.OnlyNilEqualsNil` | compiler+runtime/include/cpp/jank/runtime/oref.hpp:402-444 | Nil equals nil and nothing else |
| `Numbers.EqualIsSymmetric` | compiler+runtime/include/cpp/jank/runtime/oref.hpp:402-444 | `equal` is symmetric on all references |
| `Numbers.EqualIsReflexiveIff` | compiler+runtime/include/cpp/jank/runtime/oref.hpp:402-444 | Everything but NaN equals itself |
| `Numbers.EqualIsTransitiveIff` | compiler+runtime/include/cpp/jank/runtime/oref.hpp:402-444 | It is transitive except where an integer and a real meet of which one is kept in an object |
| `Numbers.CompareAgreesWithEqualIff` | compiler+runtime/include/cpp/jank/runtime/oref.hpp:402-444 | `compare` yields 0 exactly where `equal` holds, except for NaN and for an integer and a real of the same rounded value of which one is kept in an object |
| `Numbers.CompareIsAntisymmetric` | compiler+runtime/include/cpp/jank/runtime/oref.hpp:838-892 | Swapping the operands negates the result, so any two numbers are ordered |
| `Numbers.CompareIsTransitiveUnlessConfused` | compiler+runtime/include/cpp/jank/runtime/oref.hpp:838-892 | Transitivity fails exactly through a NaN, or through a real that two different integers round to |
| `Numbers.InlineNumbersAreOrdered` | compiler+runtime/include/cpp/jank/runtime/oref.hpp:838-873 | Inline integers and reals other than NaN are in a total preorder that agrees with `equal` |
| `Numbers.LargeIntegersAreConfused` | compiler+runtime/src/cpp/jank/runtime/obj/number.cpp:139-149 | Departure: 2^53 + 1 and 2^53 both compare as no different from the real 2^53, but not from each other |
| `Numbers.RoundingKeepsOrder` | compiler+runtime/src/cpp/jank/runtime/obj/number.cpp:139-149 | The conversion of integers to doubles, to nearest and even, keeps their order |
| `Numbers.RoundToIsNearest` | compiler+runtime/src/cpp/jank/runtime/obj/number.cpp:139-149 | No multiple of the spacing is nearer, and of two equally near ones it is the even one |
| `Numbers.ObjectRef.Box` | compiler+runtime/include/cpp/jank/runtime/core/make_box.hpp:87-101 | Boxing an integer of 64 bits keeps its value: in the word exactly when it fits in 32 bits, else in a new object |
| `Numbers.ObjectRef.Reset` | compiler+runtime/include/cpp/jank/runtime/oref.hpp:293-296 | A reference that is reset is nil, and no number |
| `Numbers.ObjectRef.Assign` | compiler+runtime/include/cpp/jank/runtime/oref.hpp:316-327 | Assignment takes over the word, from itself as well |
| `Numbers.EqualDoublesIff` | compiler+runtime/include/cpp/jank/runtime/oref.hpp:402-444 | Doubles are equal exactly when their bits are, apart from NaNs and the two zeros |
| `NumberHashes.SameKindHashesEqualIff` | compiler+runtime/src/cpp/jank/hash.cpp:104-126 | Equal numbers of one kind hash equal, inline or in objects, exactly when they are not zeros of different sign |
| `NumberHashes.ZeroHashesEqualIff` | compiler+runtime/src/cpp/jank/hash.cpp:104-126 | The integer zero hashes like the real 0.0, but not like -0.0, which it equals too |
| `NumberHashes.HashRealKeepsLowerHalf` | compiler+runtime/src/cpp/jank/hash.cpp:115-126 | Given the upper half of the bits, the hash of a real gives the lower half back |
| `NumberHashes.MixedHashesEqualIff` | compiler+runtime/src/cpp/jank/hash.cpp:85-126 | A nonzero small integer and the real it equals hash equal exactly when the integer is the one that, for its sign, the inverse of the mixers gives for the hash of the real |
| `NumberHashes.AtMostOneHashesLikeItsReal` | compiler+runtime/src/cpp/jank/hash.cpp:85-126 | Of two nonzero integers of one sign that equal reals of one hash, at most one hashes like its real |
| `NumberHashes.OneHashesUnlikeItsReal` | compiler+runtime/src/cpp/jank/hash.cpp:85-126 | Departure: 1 equals 1.0 and does not hash like it |

## Left out

- The named form of `register_captures` stores a reference to a binding on its stack; the model has only the copied
  binding, which refers to an object that stays.
- Analysis of forms other than symbols, and the later rewriting of captures when fn expressions are wrapped for
  evaluation: the model has the steps on frames that analysis is made of. That only the innermost frame gains bindings,
  and that a binding is kept under its own name, are assumptions about the rest of the analyzer.
- Analyzer.Processor.AnalyzeSymbol: whether a type can be copied into a closure is a parameter; the error message, the
  expression's position and the search for a var are not modelled.
- Allocation failure: each string operation is enabled when what it allocates fits in the address space, and new blocks
  get addresses never used before. The collector is not modelled, and `GC_realloc` always moves.
- StringRuns.SubstrYieldsClamped: not for positions and counts that wrap, where the code reads outside the string.
- StringRuntime.Runtime.Substr: likewise.
- Big-endian layout of the union, assignment of a string from its own characters, and views that outlive their string.
- Formatting of numbers and characters by a builder, of which only the appending of bytes and strings is modelled.
- `hash::string`, `combine` and the dispatch of hashing to other objects; elements enter as their hashes.
- `to_char` and the surrogate helpers; `utf8_iterator` made at a position inside a string.
- Regular expressions in `replace`, `replace_first` and `split`; the dispatch on the kind of match; case conversion.
- Replace.Trim: `isspace` as in the C locale; the one-sided forms and `trim_newline` would add only easy members.
- The module and macro expansion of a note's source, and adding usages to an error.
- Notes.Base.SortNotes: not when one file name begins with another and `compare` gets the length difference wrong, which
  takes names of 2^31 bytes; a sort by what need not be an order has no defined result.
- Notes.ThreeSortsAreOne: likewise.
- JSON text, `key_fn`, `value_fn`, `date_formatter` and `bigdec`; map keys that are not strings, whose names may collide;
  values that are written but never read, such as keywords, ratios and dates.
- Numbers.CompareIsNumeric: of the numbers in objects only integers of 64 bits and reals, not big integers, big decimals
  and ratios; so for the results that build on it. Comparison of things that are not numbers.
- Pointers of more than 48 bits, which tagging would mix with the tag.
- Code generation, the JIT, the IR, the lexer and parser, and the persistent collections.
