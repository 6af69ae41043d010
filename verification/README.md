# Verification of the logger's JSON library and wire formats

The logger stores its entries through the JSON library that is vendored under `cmake-build-debug/_deps/json-src`, and
talks to its terminal and its server in two text formats of its own. This project models the parts of these programs
whose correctness is hardest to see, and proves them in Dafny.

1. **Printing of floating-point numbers** (`Powers`, `DiyFps`, `Boundaries`, `CachedPowers`, `DigitGen`, `Grisu`,
   `FormatBuffer`, `ToChars`). A float is given by its biased exponent E and fraction F, the precision stays symbolic,
   and 64-bit words are bounded integers, so every assignment carries the obligation that nothing wraps. Values are
   compared as exact reals. The end result is that every double is printed in at most 23 characters (and a sign) that
   read back as the same double. "Shortest" is a statement about the interval [M-, M+] that remains after scaling and
   shrinking, as in the source. For the full interval between the midpoints it is exact up to two units of the scaled
   numbers (`Grisu.CoarserIsNearMidpoint`).
2. **JSON documents** (`Replace`, `StringEscape`, `Decimals`, `JsonValue`, `JsonPointer`, `Patch`, `Diff`,
   `DiffExact`, `MergePatch`, `Flatten`, `Unflatten`, `FlattenRoundTrip`, `UnflattenExact`, `Destroy`). JSON Pointer
   (RFC 6901), JSON Patch (RFC 6902) with `diff`, Merge Patch (RFC 7396), flatten/unflatten and the destruction of
   nested values. Operations that change a document in place are methods of classes that hold it; each is proved equal
   to a function of the old document, and the laws are proved about these functions. Keys are visited in lexicographic
   order, which for UTF-8 is the same by bytes as by code points.
3. **The logger's wire formats** (`TextStream`, `LoggerInstruction`, `Terminal`, `ServerRequest`). The instruction
   format with its scanner and queue, and the server request. Both are modelled as written, including the two
   replacements whose results are dropped and the separating space that stays in the data.

Where a property that the code or its documentation suggests does not hold for all inputs, the exact condition is
proved:

- The documentation of `unflatten` excepts only empty arrays and objects from restoring a flattened value. An object
  with a key "0" is restored only if another of its keys has an entry that sorts before those of "0"
  (`FlattenRoundTrip.UnflattenFlatten`, with the concrete input in `FlattenRoundTrip.ZeroKey`).
  Whether the loss is reported as an error has a condition of its own (`FlattenRoundTrip.UnflattenFlattenFails`). An
  empty container comes back as null, under the same condition (`FlattenRoundTrip.EmptiesComeBackAsNull`).
- A comment in `operation_add` holds that an existing parent cannot be primitive. It can be, and then the assertion
  fails (`Patch.AddAborts`, with the input in `Patch.NumberAsParent`).
- Flattening an unflattened object gives it back only if it has a key, no key continues the path of another and
  no array has a gap (`UnflattenExact.FlattenUnflatten`, with an input in `UnflattenExact.NothingToUnflatten`).
- Section 4.2 of RFC 6902 demands that the location of a remove exists, and nothing else. The root exists, and removing
  it is error 405. Under a primitive parent the library removes nothing and reports nothing (`Patch.RemoveSucceeds`,
  with the input in `Patch.NumberAsParent`).
- Section 4.1 of RFC 6902 has no add into a null. The library turns the null into an object (`Patch.AddSucceeds`, with
  the input in `Patch.NullAsParent`).
- Section 4.4 of RFC 6902 forbids moving a value into one of its own children. The library accepts this exactly when the
  value came from an array whose next element, moving into its place, can take it in (`Patch.MoveIntoChild`, with the
  input in `Patch.MoveIntoNeighbour`).
- A failing operation leaves the document as it was, unless it is a move from an existing location other than the root
  (`Patch.FailureChangesDocument`, with the input in `Patch.MoveLosesMember`).
- Removing what was added restores the document except after adding to an existing key, to "-" or to null
  (`Patch.AddThenRemove`).
- The logger's instructions and requests do not survive all data (`LoggerInstruction.RoundTrip`,
  `Terminal.ScanIsExact`, `ServerRequest.RoundTrip`).

The precondition `Fits` that several results carry says that every array has a length that `size_type` can hold.

## Model

| member | source | states |
|---|---|---|
| DiyFps.Sub | cmake-build-debug/_deps/json-src/include/nlohmann/detail/conversions/to_chars.hpp:70-76 | the difference of the significands is the difference of the values |
| DiyFps.MulIsRounded | cmake-build-debug/_deps/json-src/include/nlohmann/detail/conversions/to_chars.hpp:82-141 | the four 32-bit partial products add up to floor((x.f * y.f + 2^63) / 2^64); no intermediate sum leaves 64 bits |
| DiyFps.MulError | cmake-build-debug/_deps/json-src/include/nlohmann/detail/conversions/to_chars.hpp:82-141 | the rounded product is within half a unit of the exact one |
| DiyFps.Normalize | cmake-build-debug/_deps/json-src/include/nlohmann/detail/conversions/to_chars.hpp:147-158 | the top bit ends up set and the value is unchanged |
| DiyFps.NormalizeTo | cmake-build-debug/_deps/json-src/include/nlohmann/detail/conversions/to_chars.hpp:164-172 | the requested exponent is reached without losing a bit and the value is unchanged |
| Boundaries.ComputeBoundaries | cmake-build-debug/_deps/json-src/include/nlohmann/detail/conversions/to_chars.hpp:188-254 | for every precision p with p + 3 <= 64 the three results are exactly the float and the midpoints between it and the floats next to it (twice a midpoint is the sum of two floats), on one exponent, with the distances 2^shift and (next to a power of two) 2^(shift-1) |
| Boundaries.StrictlyBetweenMidpointsIsNearest | cmake-build-debug/_deps/json-src/include/nlohmann/detail/conversions/to_chars.hpp:217-246 | every real strictly between the two midpoints is strictly closer to the float than to any other finite float, so it reads back as that float under any tie rule |
| Boundaries.AboveByGap | cmake-build-debug/_deps/json-src/include/nlohmann/detail/conversions/to_chars.hpp:217-246 | every larger float is at least one gap above |
| Boundaries.BelowByGap | cmake-build-debug/_deps/json-src/include/nlohmann/detail/conversions/to_chars.hpp:217-246 | every smaller float is at least one gap below, or half a gap for a zero fraction with E > 1 |
| Boundaries.NextByGap | cmake-build-debug/_deps/json-src/include/nlohmann/detail/conversions/to_chars.hpp:217-246 | the successor, with the fraction increased or the next exponent, is exactly one gap above |
| Boundaries.PreviousByGap | cmake-build-debug/_deps/json-src/include/nlohmann/detail/conversions/to_chars.hpp:217-246 | the predecessor is exactly one gap below, or half a gap for a zero fraction with E > 1 |
| Boundaries.MidpointsOfNeighbours | cmake-build-debug/_deps/json-src/include/nlohmann/detail/conversions/to_chars.hpp:217-246 | twice a midpoint is the sum of the float and its neighbour, and the neighbours lie on either side |
| Boundaries.ReadsBackExactly | cmake-build-debug/_deps/json-src/include/nlohmann/detail/conversions/to_chars.hpp:217-246 | a real rounds to a positive float, every other finite float being strictly farther away, if and only if it lies strictly between the midpoints; above the largest finite float there is no upper bound |
| CachedPowers.GetCachedPower | cmake-build-debug/_deps/json-src/include/nlohmann/detail/conversions/to_chars.hpp:328-486 | each of the 79 table entries is normalized and within half a unit of 10^k, and the chosen one brings the product's exponent into [-60, -32] |
| CachedPowers.LookupSafe | cmake-build-debug/_deps/json-src/include/nlohmann/detail/conversions/to_chars.hpp:471-485 | with C++ division truncating toward zero, the index and window assertions hold exactly for -1137 <= e <= 964 |
| DigitGen.FindLargestPow10 | cmake-build-debug/_deps/json-src/include/nlohmann/detail/conversions/to_chars.hpp:492-544 | returns the number of decimal digits and the largest power of ten not above n |
| DigitGen.Grisu2Round | cmake-build-debug/_deps/json-src/include/nlohmann/detail/conversions/to_chars.hpp:546-581 | the loop never wraps, never meets a last digit '0', and stops at the first candidate that is closest to w among all rest + j * ten_k <= delta |
| DigitGen.IntegralStep | cmake-build-debug/_deps/json-src/include/nlohmann/detail/conversions/to_chars.hpp:650-709 | one round of the first loop keeps M+ = (buffer * 10^n + p1) * one + p2 and yields a digit |
| DigitGen.FractionStep | cmake-build-debug/_deps/json-src/include/nlohmann/detail/conversions/to_chars.hpp:752-796 | one round of the second loop keeps M+ * 10^m = buffer * one + p2 and yields a digit |
| DigitGen.IntegralBelowCap | cmake-build-debug/_deps/json-src/include/nlohmann/detail/conversions/to_chars.hpp:650-709 | while the remainder exceeds delta, fewer digits are out than the width of the interval demands |
| DigitGen.FractionBelowCap | cmake-build-debug/_deps/json-src/include/nlohmann/detail/conversions/to_chars.hpp:752-796 | the same for the second loop, which also bounds its number of rounds |
| DigitGen.Finish | cmake-build-debug/_deps/json-src/include/nlohmann/detail/conversions/to_chars.hpp:685-702 | what either loop leaves behind, rounded by the best number of steps, is the shortest and closest decimal in [M-, M+] |
| DigitGen.NoCoarserDecimal | cmake-build-debug/_deps/json-src/include/nlohmann/detail/conversions/to_chars.hpp:650-806 | no decimal with a coarser last place than the generated one lies in [M-, M+] |
| DigitGen.FractionDigits | cmake-build-debug/_deps/json-src/include/nlohmann/detail/conversions/to_chars.hpp:750-806 | the second loop ends, every 64-bit operation stays in range, its assertions hold, and its output is shortest and closest |
| DigitGen.Grisu2DigitGen | cmake-build-debug/_deps/json-src/include/nlohmann/detail/conversions/to_chars.hpp:587-820 | for -60 <= e <= -32 and M- <= w <= M+ nothing wraps, every assertion holds, and at most cap digits come out whenever (M+ - M-) * 10^(cap-1) >= M+; they are the shortest decimal in [M-, M+] and the one of that length closest to w, without leading or trailing zero |
| Grisu.AccurateIsNear | cmake-build-debug/_deps/json-src/include/nlohmann/detail/conversions/to_chars.hpp:345-375 | an accurate table entry differs from 10^k by at most half a unit, as real numbers |
| Grisu.UpperShrinks | cmake-build-debug/_deps/json-src/include/nlohmann/detail/conversions/to_chars.hpp:847-876 | lowering the scaled upper boundary by one unit makes up for both roundings: it is strictly below the exact product |
| Grisu.LowerRises | cmake-build-debug/_deps/json-src/include/nlohmann/detail/conversions/to_chars.hpp:847-876 | raising the scaled lower boundary by one unit puts it strictly above the exact product |
| Grisu.OrderSurvivesScaling | cmake-build-debug/_deps/json-src/include/nlohmann/detail/conversions/to_chars.hpp:847-876 | after scaling and shrinking, M- <= w < M+ for every supported precision |
| Grisu.WideEnough | cmake-build-debug/_deps/json-src/include/nlohmann/detail/conversions/to_chars.hpp:847-878 | the scaled interval is wide enough for the number of digits the format needs |
| Grisu.SeventeenForDouble | cmake-build-debug/_deps/json-src/include/nlohmann/detail/conversions/to_chars.hpp:1101-1103 | 17 digits are enough for every double |
| Grisu.NineForFloat | cmake-build-debug/_deps/json-src/include/nlohmann/detail/conversions/to_chars.hpp:1101-1103 | 9 digits are enough for every single-precision float |
| Grisu.BetweenBoundaries | cmake-build-debug/_deps/json-src/include/nlohmann/detail/conversions/to_chars.hpp:828-879 | a decimal in the shrunk scaled interval lies strictly between the exact midpoints |
| Grisu.CoarserIsNearMidpoint | cmake-build-debug/_deps/json-src/include/nlohmann/detail/conversions/to_chars.hpp:847-878 | what shrinking can cost: a decimal with a coarser last place lies between the midpoints only within two scaled units of one of them |
| Grisu.Grisu2OfBoundaries | cmake-build-debug/_deps/json-src/include/nlohmann/detail/conversions/to_chars.hpp:828-879 | scaling followed by digit generation gives the shortest and closest decimal of the scaled interval |
| Grisu.Grisu2 | cmake-build-debug/_deps/json-src/include/nlohmann/detail/conversions/to_chars.hpp:886-919 | for every positive finite float the exact value digits * 10^decimalExponent lies strictly between the midpoints, so it reads back as the same float |
| Grisu.RoundTrip | cmake-build-debug/_deps/json-src/include/nlohmann/detail/conversions/to_chars.hpp:886-919 | lying strictly between the midpoints means reading back as the float |
| FormatBuffer.ExponentTextReads | cmake-build-debug/_deps/json-src/include/nlohmann/detail/conversions/to_chars.hpp:928-967 | the exponent text reads as the exponent, between -1000 and 1000 |
| FormatBuffer.AppendExponent | cmake-build-debug/_deps/json-src/include/nlohmann/detail/conversions/to_chars.hpp:928-967 | writes that text and nothing in front of it |
| FormatBuffer.LayoutReads | cmake-build-debug/_deps/json-src/include/nlohmann/detail/conversions/to_chars.hpp:980-1048 | in all four notations an independent reader of decimal text finds exactly digits * 10^decimalExponent |
| FormatBuffer.LayoutLength | cmake-build-debug/_deps/json-src/include/nlohmann/detail/conversions/to_chars.hpp:1110-1112 | the length stays within the three bounds the caller asserts |
| FormatBuffer.LayoutNotation | cmake-build-debug/_deps/json-src/include/nlohmann/detail/conversions/to_chars.hpp:980-1048 | plain notation exactly for values from 10^minExp up to 10^maxExp, with one point between digits, a leading "0." exactly below 1 and a final ".0" exactly for integers; else one digit, an optional fraction, and a signed exponent of two or three digits |
| FormatBuffer.FormatBuffer | cmake-build-debug/_deps/json-src/include/nlohmann/detail/conversions/to_chars.hpp:980-1048 | the overlapping moves in the buffer leave exactly that layout, in the notation described next, and the returned end is exact |
| ToChars.ToChars | cmake-build-debug/_deps/json-src/include/nlohmann/detail/conversions/to_chars.hpp:1065-1115 | the text of any supported format reads back as the float, is plain exactly from 10^-4 up to 10^digits10 and scientific otherwise, is the shortest of the scaled interval, and fits the asserted room; zero is written 0.0, a negative number has its sign in front |
| ToChars.DoubleToChars | cmake-build-debug/_deps/json-src/include/nlohmann/detail/conversions/to_chars.hpp:1065-1115 | a double takes at most 23 characters plus the sign, always reads back as itself, and is in plain notation exactly from 10^-4 up to 10^15 |
| ToChars.FloatToChars | cmake-build-debug/_deps/json-src/include/nlohmann/detail/conversions/to_chars.hpp:1065-1115 | a single-precision float takes at most 15 characters plus the sign, always reads back as itself, and is in plain notation exactly from 10^-4 up to 10^6 |
| Replace.ReplaceSubstring | cmake-build-debug/_deps/json-src/include/nlohmann/detail/string_escape.hpp:31-40 | the in-place loop terminates although the replacement may contain the pattern, and gives the leftmost, non-overlapping replacement |
| StringEscape.EscapeIsMap | cmake-build-debug/_deps/json-src/include/nlohmann/detail/string_escape.hpp:50-55 | two passes of escape amount to one pass over the characters |
| StringEscape.UnescapeIsMap | cmake-build-debug/_deps/json-src/include/nlohmann/detail/string_escape.hpp:65-69 | two passes of unescape amount to one pass over the escape sequences, for every string |
| StringEscape.UnescapeEscape | cmake-build-debug/_deps/json-src/include/nlohmann/detail/string_escape.hpp:42-69 | unescape undoes escape; an escaped token has no '/' and no stray '~' |
| StringEscape.EscapeUnescape | cmake-build-debug/_deps/json-src/include/nlohmann/detail/string_escape.hpp:42-69 | escape undoes unescape on every well-escaped token |
| StringEscape.EscapeExact | cmake-build-debug/_deps/json-src/include/nlohmann/detail/string_escape.hpp:42-55 | '~' becomes ~0, '/' becomes ~1 and every other character stays, wherever in the token it stands |
| JsonValue.AscendingIsSorted | cmake-build-debug/_deps/json-src/include/nlohmann/json.hpp:326-335 | iteration visits every key once, in strictly ascending lexicographic order |
| JsonPointer.ToText | cmake-build-debug/_deps/json-src/include/nlohmann/detail/json_pointer.hpp:68-76 | the printed text parses back to the same tokens |
| JsonPointer.PrintConcat | cmake-build-debug/_deps/json-src/include/nlohmann/detail/json_pointer.hpp:68-76 | the text of a concatenation is the concatenation of the texts |
| JsonPointer.StandardExamples | cmake-build-debug/_deps/json-src/include/nlohmann/detail/json_pointer.hpp:68-76 | pointers from section 5 of RFC 6901, among them /a~1b for "a/b" and /m~0n for "m~n" |
| JsonPointer.Split | cmake-build-debug/_deps/json-src/include/nlohmann/detail/json_pointer.hpp:666-724 | the loop over start and slash accepts a text exactly if it is empty or starts with '/' and has no stray '~', and then the tokens print back to the text |
| JsonPointer.ParsePrint | cmake-build-debug/_deps/json-src/include/nlohmann/detail/json_pointer.hpp:666-724 | split(to_string(ts)) == ts for every token list |
| JsonPointer.ParseIsInverse | cmake-build-debug/_deps/json-src/include/nlohmann/detail/json_pointer.hpp:666-724 | split accepts exactly the printed token lists, each with the tokens it was printed from |
| JsonPointer.ParseErrors | cmake-build-debug/_deps/json-src/include/nlohmann/detail/json_pointer.hpp:676-716 | error 107 exactly for a non-empty text without leading '/', error 108 exactly for a '~' not followed by 0 or 1; no other error |
| JsonPointer.PrintInjective | cmake-build-debug/_deps/json-src/include/nlohmann/detail/json_pointer.hpp:68-76 | different token lists have different texts |
| JsonPointer.ArrayIndexExact | cmake-build-debug/_deps/json-src/include/nlohmann/detail/json_pointer.hpp:214-250 | an index is accepted exactly in the form in which it is printed, below the maximum of size_type |
| JsonPointer.ArrayIndexErrors | cmake-build-debug/_deps/json-src/include/nlohmann/detail/json_pointer.hpp:214-250 | error 106 exactly for a leading zero, 109 exactly for another leading non-digit (both in longer texts), 410 exactly for the maximum of size_type; else 404 |
| JsonPointer.GetChecked | cmake-build-debug/_deps/json-src/include/nlohmann/detail/json_pointer.hpp:529-571 | the loop ends with the value at the end of a walk through members and elements, or with the error of the first token that the value reached so far refuses |
| JsonPointer.GetIsWalk | cmake-build-debug/_deps/json-src/include/nlohmann/detail/json_pointer.hpp:529-571 | checked access gives a value exactly if the tokens lead to it step by step, through members by name and elements by printed index |
| JsonPointer.GetFails | cmake-build-debug/_deps/json-src/include/nlohmann/detail/json_pointer.hpp:529-571 | checked access fails with an error exactly if some prefix leads to a value that refuses the next token with it: 403 missing member, 402 "-", 401 behind the end, 404 no container, or the index's own |
| JsonPointer.Contains | cmake-build-debug/_deps/json-src/include/nlohmann/detail/json_pointer.hpp:578-655 | true exactly if checked access succeeds; an error exactly for an empty or too large index token reached in an array, and then checked access reports the same error |
| JsonPointer.PutLaws | cmake-build-debug/_deps/json-src/include/nlohmann/detail/json_pointer.hpp:422-464 | assigning through a checked reference: what was put is got, putting what is there changes nothing, the last of two puts wins |
| JsonPointer.PutFrame | cmake-build-debug/_deps/json-src/include/nlohmann/detail/json_pointer.hpp:422-464 | an assignment is invisible to every pointer that leaves the path to it |
| JsonPointer.PutConcat | cmake-build-debug/_deps/json-src/include/nlohmann/detail/json_pointer.hpp:422-464 | an assignment at a path with a given prefix is the assignment inside the subtree at that prefix, put back there |
| JsonPointer.PutInside | cmake-build-debug/_deps/json-src/include/nlohmann/detail/json_pointer.hpp:422-464 | the same one token below a value that has just been put |
| Patch.AddThenRemove | cmake-build-debug/_deps/json-src/include/nlohmann/json.hpp:4705-4799 | remove undoes add at the same pointer exactly for a new key of an object or an array index |
| Patch.ParentFrame | cmake-build-debug/_deps/json-src/include/nlohmann/json.hpp:4705-4799 | add and remove change nothing outside the parent they address |
| Patch.AddedMember | cmake-build-debug/_deps/json-src/include/nlohmann/json.hpp:4729-4736 | add to an object sets one member and keeps the others |
| Patch.AddedElement | cmake-build-debug/_deps/json-src/include/nlohmann/json.hpp:4738-4757 | add to an array puts the value at its index and moves the later elements by one |
| Patch.RemovedMember | cmake-build-debug/_deps/json-src/include/nlohmann/json.hpp:4780-4792 | remove from an object takes away one member and keeps the others |
| Patch.RemovedElement | cmake-build-debug/_deps/json-src/include/nlohmann/json.hpp:4793-4798 | remove from an array takes away one element and moves the later ones down by one |
| Patch.MemberFrame | cmake-build-debug/_deps/json-src/include/nlohmann/json.hpp:4705-4799 | with an object as parent, add and remove change nothing in the document but the addressed member |
| Patch.ElementFrame | cmake-build-debug/_deps/json-src/include/nlohmann/json.hpp:4705-4799 | with an array as parent, whatever was reached through another element is reached through that element's new index |
| Patch.AddSucceeds | cmake-build-debug/_deps/json-src/include/nlohmann/json.hpp:4705-4770 | add succeeds exactly at the root, in an object, in an array with - or an index up to its length, and in a null, which becomes an object |
| Patch.AddedIsFound | cmake-build-debug/_deps/json-src/include/nlohmann/json.hpp:4705-4770 | after a successful add, at the root or below, the value is found where it was added: behind the last element for "-", in the new object for a null parent |
| Patch.RootIsReplaced | cmake-build-debug/_deps/json-src/include/nlohmann/json.hpp:4707-4711 | add, copy and move to "" replace the whole document by the value |
| Patch.AddErrors | cmake-build-debug/_deps/json-src/include/nlohmann/json.hpp:4715-4757 | the errors of add: that of the access to the parent, that of the index, 401 behind the end |
| Patch.NullAsParent | cmake-build-debug/_deps/json-src/include/nlohmann/json.hpp:4729-4736 | the input: add at /a/b where a is null makes it an object |
| Patch.AddAborts | cmake-build-debug/_deps/json-src/include/nlohmann/json.hpp:4729-4769 | add hits its assertion exactly when the parent exists and is a boolean, number or string |
| Patch.RemoveSucceeds | cmake-build-debug/_deps/json-src/include/nlohmann/json.hpp:4773-4799 | remove succeeds exactly when the location exists and is not the root, or silently when the parent is primitive, and then changes nothing; at the root it is error 405 |
| Patch.RemoveErrors | cmake-build-debug/_deps/json-src/include/nlohmann/json.hpp:4773-4799 | the errors of remove: that of the access to the parent, 403 for a missing key, that of the index, 401 behind the end |
| Patch.DecodeExact | cmake-build-debug/_deps/json-src/include/nlohmann/json.hpp:4808-4934 | an element of a patch asks for an operation exactly if it is an object with the members the standard lists for that operation; other members are ignored |
| Patch.DecodeErrors | cmake-build-debug/_deps/json-src/include/nlohmann/json.hpp:4808-4934 | error 104 exactly for an element that is no object; otherwise only 105 and the errors of a pointer's text |
| Patch.DecodeErrorKinds | cmake-build-debug/_deps/json-src/include/nlohmann/json.hpp:4815-4862 | which error a rejected element gives: 105 for a missing or mistyped member or an unknown operation, after the error of the path's text and before that of "from" |
| Patch.MoveAndCopy | cmake-build-debug/_deps/json-src/include/nlohmann/json.hpp:4871-4900 | a move is a remove followed by an add of the value that was there, a copy just the add (sections 4.4 and 4.5) |
| Patch.FromMissing | cmake-build-debug/_deps/json-src/include/nlohmann/json.hpp:4871-4900 | a move or copy from a location that does not exist fails with the error of the access and changes nothing |
| Patch.TestExact | cmake-build-debug/_deps/json-src/include/nlohmann/json.hpp:4903-4924 | a test succeeds exactly if the value is there and never changes the document; error 501 unless an array index is malformed |
| Patch.ReplaceExact | cmake-build-debug/_deps/json-src/include/nlohmann/json.hpp:4864-4868 | a replace succeeds exactly if the location exists, and puts the value there; otherwise it fails with the error of the access and changes nothing |
| Patch.ReplaceOfMissing | cmake-build-debug/_deps/json-src/include/nlohmann/json.hpp:4864-4868 | the input: {} with a replace at /a is error 403 |
| Patch.ReplaceIsRemoveThenAdd | cmake-build-debug/_deps/json-src/include/nlohmann/json.hpp:4864-4868 | replace is remove followed by add at the same location, as section 4.3 of RFC 6902 has it, for objects and arrays |
| Patch.MoveIntoChild | cmake-build-debug/_deps/json-src/include/nlohmann/json.hpp:4871-4885 | a move of a value into one of its own children, which section 4.4 of RFC 6902 forbids, succeeds exactly if the value came from an array whose next element, moving into its place, can take it in; the result is given |
| Patch.MoveIntoItself | cmake-build-debug/_deps/json-src/include/nlohmann/json.hpp:4871-4885 | corollary for a member of an object: such a move always fails with error 403, with the member removed |
| Patch.MoveIntoNeighbour | cmake-build-debug/_deps/json-src/include/nlohmann/json.hpp:4871-4885 | the input: [1, {}] with a move from /0 to /0/x becomes [{"x": 1}] |
| Patch.MoveLosesMember | cmake-build-debug/_deps/json-src/include/nlohmann/json.hpp:4871-4885 | the input: {"a": null} with a move from /a to /a/b fails with error 403 and leaves {} |
| Patch.FailureChangesDocument | cmake-build-debug/_deps/json-src/include/nlohmann/json.hpp:4850-4933 | a failing operation changes the document exactly if it is a move from an existing location other than the root |
| Patch.NumberAsParent | cmake-build-debug/_deps/json-src/include/nlohmann/json.hpp:4705-4799 | the input for both: at /a/b where a is a number, add fails its assertion and remove succeeds without effect |
| Patch.TopCheck | cmake-build-debug/_deps/json-src/include/nlohmann/json.hpp:4715-4720 | the check of the first token fails only where access to the parent fails with the same error |
| Patch.Document.OperationAdd | cmake-build-debug/_deps/json-src/include/nlohmann/json.hpp:4705-4770 | the in-place add: new document or error, as the function for which the laws above hold, with the document untouched on an error |
| Patch.Document.OperationRemove | cmake-build-debug/_deps/json-src/include/nlohmann/json.hpp:4773-4799 | the in-place remove, likewise |
| Patch.Document.ApplyInPlace | cmake-build-debug/_deps/json-src/include/nlohmann/json.hpp:4850-4933 | the six operations; replace needs its location to exist; a move whose second half fails leaves the value removed; test turns out_of_range into error 501 and passes parse errors on |
| Patch.Document.PatchInPlace | cmake-build-debug/_deps/json-src/include/nlohmann/json.hpp:4668-4935 | operations take effect one after the other up to the first failure, and earlier ones keep their effect; a patch that is no array is error 104 |
| Patch.PatchCopy | cmake-build-debug/_deps/json-src/include/nlohmann/json.hpp:4939-4944 | patching a copy; error 104 for whatever is no array, the document itself for an empty array |
| Patch.StepsConcat | cmake-build-debug/_deps/json-src/include/nlohmann/json.hpp:4808-4934 | a patch that is a concatenation is its parts applied one after the other |
| Diff.ComputeDiff | cmake-build-debug/_deps/json-src/include/nlohmann/json.hpp:4949-5079 | the computed operations, applied to any document that has the source at the given path, replace it by the target and succeed |
| Diff.DiffArrays | cmake-build-debug/_deps/json-src/include/nlohmann/json.hpp:4973-5015 | the loop that counts upwards and inserts at a fixed position yields the removals in descending order, between the differences of the common elements and the appends |
| Diff.DiffObjects | cmake-build-debug/_deps/json-src/include/nlohmann/json.hpp:5017-5057 | both passes in key order yield the differences and removals of the source's keys before the additions of new ones |
| Diff.DifferenceApplies | cmake-build-debug/_deps/json-src/include/nlohmann/json.hpp:4949-5079 | wherever the source sits in a larger document, applying the difference replaces it by the target and nothing else changes |
| Diff.DiffThenPatch | cmake-build-debug/_deps/json-src/include/nlohmann/json.hpp:4949-5079 | every operation of diff(s, t) applies to s without error and patch(s, diff(s, t)) == t |
| Diff.NoDifference | cmake-build-debug/_deps/json-src/include/nlohmann/json.hpp:4956-4959 | diff(s, t) is empty exactly when s == t |
| DiffExact.ExactlyTheDifferences | cmake-build-debug/_deps/json-src/include/nlohmann/json.hpp:4949-5079 | diff(s, t) holds exactly the differences of s and t: a replace where two values at one path are no containers of one kind and differ, a remove or add for a member or element that only one side has |
| DiffExact.OperationsInOrder | cmake-build-debug/_deps/json-src/include/nlohmann/json.hpp:4949-5079 | of any two operations of diff the earlier has the path that comes first: members of the source before new ones, each ascending; common elements ascending, then removals descending, then appends; so nothing is emitted twice |
| Diff.DiffAndPatch | cmake-build-debug/_deps/json-src/include/nlohmann/json.hpp:4939-5079 | the two methods in sequence deliver the target |
| MergePatch.Target.Apply | cmake-build-debug/_deps/json-src/include/nlohmann/json.hpp:5091-5115 | the in-place loop computes the recursive, order-free MergePatch of section 2 of RFC 7396, which is the one value that the patch, read path by path, allows |
| MergePatch.MergedIsUnique | cmake-build-debug/_deps/json-src/include/nlohmann/json.hpp:5091-5115 | path by path: a value or object of the patch is in the result, a null takes the member away, what the patch does not mention is as in the target; exactly one value satisfies this, the merged one |
| MergePatch.MergeIdempotent | cmake-build-debug/_deps/json-src/include/nlohmann/json.hpp:5091-5115 | applying a patch twice equals applying it once |
| MergePatch.MergeIntoNull | cmake-build-debug/_deps/json-src/include/nlohmann/json.hpp:5091-5115 | a patch merged into null is reproduced exactly if it has no null member at any level |
| Flatten.Flattener.Add | cmake-build-debug/_deps/json-src/include/nlohmann/detail/json_pointer.hpp:735-793 | the recursion through arrays by index and objects by escaped key writes the entries of the value into result, whatever is there already |
| Flatten.FlattenValue | cmake-build-debug/_deps/json-src/include/nlohmann/detail/json_pointer.hpp:735-793 | the flattened object has one entry per leaf, its keys are the texts of the paths of leaves; a primitive value is stored as it is, an empty array or object as null |
| Flatten.EntriesExact | cmake-build-debug/_deps/json-src/include/nlohmann/detail/json_pointer.hpp:735-793 | flattening into a result adds exactly the leaf paths below the given pointer, with their values, and keeps all else |
| Flatten.FlattenedExact | cmake-build-debug/_deps/json-src/include/nlohmann/detail/json_pointer.hpp:735-793 | the keys are exactly the texts of the paths of leaves, each with the leaf's value |
| Flatten.OneEntryPerLeaf | cmake-build-debug/_deps/json-src/include/nlohmann/detail/json_pointer.hpp:735-793 | as many entries as leaves, an empty container counting as one |
| Unflatten.Builder.Assign | cmake-build-debug/_deps/json-src/include/nlohmann/detail/json_pointer.hpp:274-332 | get_and_create and the assignment through it: the value is found at its path, or an existing value on the way takes no child; after an error the containers before the rejected token have been made and nothing else has changed |
| Unflatten.SetAtExact | cmake-build-debug/_deps/json-src/include/nlohmann/detail/json_pointer.hpp:274-332 | after an assignment every value on the way is the old container with that child, or, for a null, an array for "0" and an object otherwise; arrays grow to the index, filled with null; all else is as it was |
| Unflatten.SetAtFails | cmake-build-debug/_deps/json-src/include/nlohmann/detail/json_pointer.hpp:274-332 | an assignment fails exactly at an existing value on the way: 313 for a primitive other than null, the index's error for an array |
| Unflatten.UnflattenValue | cmake-build-debug/_deps/json-src/include/nlohmann/detail/json_pointer.hpp:807-832 | the loop over the entries in key order; every entry is found in the result, error 314 exactly for whatever is no object, otherwise that of the first refused key |
| Unflatten.UnflattenAccepts | cmake-build-debug/_deps/json-src/include/nlohmann/detail/json_pointer.hpp:807-832 | whatever is unflattened without an error is an object of primitive values keyed by the texts of pointers |
| Unflatten.EntriesArePlaced | cmake-build-debug/_deps/json-src/include/nlohmann/detail/json_pointer.hpp:807-832 | whatever is accepted, every entry's value is at its pointer in the result; only a null may give way to what longer pointers put there |
| Unflatten.UnflattenErrors | cmake-build-debug/_deps/json-src/include/nlohmann/detail/json_pointer.hpp:807-832 | 314 exactly for no object; otherwise the error is exactly that of the first key that is refused: 315 for a value that is not primitive, then the pointer's text, then the assignment |
| UnflattenExact.RebuildAccepts | cmake-build-debug/_deps/json-src/include/nlohmann/detail/json_pointer.hpp:807-832 | assigning sorted entries to a null succeeds if and only if only nulls sit at paths that others continue, and where "0" is the first token every token is an array index |
| UnflattenExact.UnflattenAcceptsExactly | cmake-build-debug/_deps/json-src/include/nlohmann/detail/json_pointer.hpp:807-832 | unflatten succeeds on an arbitrary value if and only if it is an object of primitive values keyed by pointer texts whose entries are acceptable in that sense |
| UnflattenExact.FlattenUnflatten | cmake-build-debug/_deps/json-src/include/nlohmann/detail/json_pointer.hpp:735-832 | flatten(unflatten(m)) == m if and only if m has an entry, no path continues another, and no array index is missing below a present one |
| UnflattenExact.NothingToUnflatten | cmake-build-debug/_deps/json-src/include/nlohmann/detail/json_pointer.hpp:735-832 | the input: the empty object unflattens to null, which flattens to one entry |
| FlattenRoundTrip.Project | cmake-build-debug/_deps/json-src/include/nlohmann/detail/json_pointer.hpp:807-832 | what is built below a token is what its own entries build there, in any order of interleaving |
| FlattenRoundTrip.FirstTokenDecides | cmake-build-debug/_deps/json-src/include/nlohmann/detail/json_pointer.hpp:288-302 | the first token decides whether a null becomes an array or an object |
| FlattenRoundTrip.RebuildsExactly | cmake-build-debug/_deps/json-src/include/nlohmann/detail/json_pointer.hpp:807-832 | assigning all leaves of v in key order to a null gives v if and only if v is restorable |
| FlattenRoundTrip.UnflattenFlatten | cmake-build-debug/_deps/json-src/include/nlohmann/detail/json_pointer.hpp:735-832 | unflatten(flatten(v)) == v without error if and only if v has no empty container and in every object with key "0" another key's entries come first |
| FlattenRoundTrip.EmptiesComeBackAsNull | cmake-build-debug/_deps/json-src/include/nlohmann/detail/json_pointer.hpp:735-832 | unflatten(flatten(v)) is v with every empty container replaced by null, if and only if keys "0" do not interfere |
| FlattenRoundTrip.RebuildsAtAll | cmake-build-debug/_deps/json-src/include/nlohmann/detail/json_pointer.hpp:807-832 | assigning all leaves of v in key order to a null succeeds if and only if v is rebuildable |
| FlattenRoundTrip.UnflattenFlattenFails | cmake-build-debug/_deps/json-src/include/nlohmann/detail/json_pointer.hpp:735-832 | unflatten(flatten(v)) is an error if and only if some object in v whose key "0" comes first has a key that is no array index; a document that is neither restored nor an error comes back as a different value |
| FlattenRoundTrip.FlattenInjective | cmake-build-debug/_deps/json-src/include/nlohmann/detail/json_pointer.hpp:735-793 | restorable documents with the same flattened form are equal |
| FlattenRoundTrip.ZeroKey | cmake-build-debug/_deps/json-src/include/nlohmann/detail/json_pointer.hpp:288-302 | the object {"0": x} is not restored, while {"": x, "0": x} is; {"0": null} comes back as something else, {"0": null, "a": null} is an error |
| FlattenRoundTrip.FlattenThenUnflatten | cmake-build-debug/_deps/json-src/include/nlohmann/detail/json_pointer.hpp:735-832 | the same for the two methods in sequence |
| Destroy.DestroyValue | cmake-build-debug/_deps/json-src/include/nlohmann/json.hpp:554-600 | the worklist loop ends, handles every nested value exactly once, depth first and the last child first, and releases each only after its children have left it; the outer container holds only nulls at the end |
| TextStream.TakePrintedInt | src/terminal/InstructionInterpreter.hpp:46-57 | a printed int followed by a non-digit is extracted as itself |
| TextStream.TakePrintedUnsigned | src/terminal/InstructionInterpreter.hpp:46-57 | likewise for the process id |
| TextStream.TakePrintedSign | src/terminal/InstructionInterpreter.hpp:59-74 | a printed number outside the range of int makes the extraction fail, every other one is read back |
| TextStream.TakeNegative | src/terminal/InstructionInterpreter.hpp:59-74 | a negative process id is accepted and read modulo 2^64 |
| TextStream.IntExtracted | src/terminal/InstructionInterpreter.hpp:59-74 | white space, an optional sign and digits: the number if int can hold it, else a failure with the nearest limit |
| TextStream.UnsignedExtracted | src/terminal/InstructionInterpreter.hpp:59-74 | the same for the process id, a negative number being taken modulo 2^64 |
| TextStream.NothingExtracted | src/terminal/InstructionInterpreter.hpp:59-74 | a text that does not begin like that: the extraction fails, with 0 unless only white space is left |
| LoggerInstruction.Serialize | src/terminal/InstructionInterpreter.hpp:46-57 | the printed form, which reads back as the instruction exactly if the data has no ')' and no newline; the replacement of newlines has no effect because its result is dropped |
| LoggerInstruction.Example | src/terminal/InstructionInterpreter.hpp:46-57 | one instruction as it is sent, with the fields in order, the separators and the newline that stays |
| LoggerInstruction.Deserialize | src/terminal/InstructionInterpreter.hpp:59-95 | accepted exactly if, behind white space, '[' and four numbers begin the text and the first line of what follows has a '(' before its first ')'; the data is what lies between them |
| LoggerInstruction.ParseExact | src/terminal/InstructionInterpreter.hpp:59-95 | the same for the function that the method is proved equal to |
| LoggerInstruction.RejectionExact | src/terminal/InstructionInterpreter.hpp:59-95 | the reasons of rejection are the failing conjuncts: nothing but white space, no '[', no four numbers, no such parentheses |
| LoggerInstruction.RoundTrip | src/terminal/InstructionInterpreter.hpp:46-95 | an instruction is restored exactly when its data has no ')' and no newline; otherwise the data gets shorter or is rejected |
| LoggerInstruction.Transfer | src/terminal/InstructionInterpreter.hpp:46-95 | the same for the two methods in sequence |
| Terminal.UserInterface.Receive | src/terminal/TerminalUserInterface.cpp:122-140 | the scanner loop queues, behind what is queued already, the accepted texts from each '[' to the next ']' |
| Terminal.ScanNext | src/terminal/TerminalUserInterface.cpp:122-140 | whatever stands before the first '[' is skipped, the text from there to the next ']' is one frame, and the scan goes on behind it |
| Terminal.ScanIncomplete | src/terminal/TerminalUserInterface.cpp:122-140 | without a '[', or without a ']' behind the first one, nothing is queued |
| Terminal.UserInterface.Drain | src/terminal/TerminalUserInterface.cpp:156-160 | the queue is handed out from the front, in order, until it is empty |
| Terminal.ScanConcat | src/terminal/TerminalUserInterface.cpp:122-140 | a buffer that ends in ']' is scanned independently of what follows it |
| Terminal.ScanFrame | src/terminal/TerminalUserInterface.cpp:122-140 | one frame queues its instruction, or else only instructions with shorter data |
| Terminal.ScanIsExact | src/terminal/TerminalUserInterface.cpp:122-140 | scanning the concatenated serializations queues exactly the sent instructions in order if and only if no data has ')', ']' or a newline |
| Terminal.Deliver | src/terminal/TerminalUserInterface.cpp:122-160 | scanner and queue together hand out the sent list exactly in that case |
| ServerRequest.Serialize | src/networking/transport/ServerRequest.hpp:21-30 | the printed line, which ends in its only newline |
| ServerRequest.Example | src/networking/transport/ServerRequest.hpp:21-30 | one request as it is sent, with the fields in order, the separators and the newline escaped |
| ServerRequest.Deserialize | src/networking/transport/ServerRequest.hpp:32-43 | behind three extracted numbers the data is the rest up to the first newline or the end, with each literal pair turned into a newline; failed extractions store their substitutes |
| ServerRequest.ReadExact | src/networking/transport/ServerRequest.hpp:32-43 | the same for the function that the method is proved equal to |
| ServerRequest.ReadFails | src/networking/transport/ServerRequest.hpp:32-43 | without three numbers: an origin that fails stores its substitute and leaves no data; before that nothing is determined |
| ServerRequest.OneLine | src/networking/transport/ServerRequest.hpp:21-30 | the serialized request has exactly one newline, its last character |
| ServerRequest.RoundTrip | src/networking/transport/ServerRequest.hpp:21-43 | format, severity and origin are restored; the data comes back behind a space, and unchanged exactly if it has no literal backslash-n pair |
| ServerRequest.Transfer | src/networking/transport/ServerRequest.hpp:21-43 | the same for the two methods in sequence |
| ServerRequest.RefoldedIsUnfoldFold | src/networking/transport/ServerRequest.hpp:46-53 | escaping newlines and unescaping amounts to one pass that also turns each literal pair into a newline |

## Left out

- Files, sockets, epoll, signals, clocks, host names and mutexes: input and output without a hard property.
- The JSON lexer, parser, serializer, binary formats, iterators, `ordered_map`, diagnostics and allocation.
- Number kinds: one integer kind stands for signed, unsigned and floating-point numbers; NaN, binary and discarded
  values are not modelled, and equality is structural.
- References into a document: a position is a token path or a value, and an assignment through a reference is an update
  along the path; aliasing between a document and its patch is not modelled.
- Strings are sequences of characters: bytes, encodings and embedded terminators are not distinguished.
- Memory: allocation failures and the maximum size of a vector below the range of `size_type`.
- Builds with assertions disabled: a failing assertion is an outcome of its own (`AssertionFailure`).
- Order of evaluation: in `test` and `replace` the library leaves open whether the path is resolved before or after the
  "value" member is looked up; the model looks it up first. Only the reported error depends on it.
- The text of error messages; errors are the exception class and its number.
- Conversion of a native double to E and F, and reading decimal text back into a float: nearest-value reading is stated
  as a property of exact reals among the finite floats, without the overflow to infinity.
- Flatten.FlattenedExact: requires array lengths within `size_type`, because a path with a longer index is rejected when
  it is read.
- Numbers that are never written because an extraction before them failed: reported as an outcome of its own
  (`Indeterminate`); for instructions every failed extraction is a rejection, as in the source.
- Which of two messages rejects an instruction of white space only: that depends on a character that is never written,
  and the model gives a reason of its own (`Blank`).
- Instructions that arrive in two parts: the scanner keeps nothing between buffers, so one buffer is modelled.
- The range of the transported enumerations, the handling of instructions behind the queue, and exceptions from it.
