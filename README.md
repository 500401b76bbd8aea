# igen-shared-ts utilities in Dafny

A Dafny model of the general-purpose helpers of the igen-shared-ts library. The helpers cover:

- arrays: deduplication, set-like filters, chunking, grouping, partitioning, zipping;
- strings: capitalisation, the word tokenizer behind `snakeCase`, `kebabCase` and `camelCase`, trimming and blank checks;
- plain objects: clone, shallow equality, pick, omit, building an object from entries;
- the standard helpers: `isDefined`, `assertDefined`, `identity`, `not`, `ok`, `err`;
- the numeric helpers `clamp`, `sum` and `mean`.

There is one module for each source file:

| module | file | source |
|---|---|---|
| `Std` | `std.dfy` | `src/utils/std.ts` |
| `Numbers` | `numbers.dfy` | `src/utils/number.ts` |
| `Arrays` | `arrays.dfy` | `src/utils/array.ts` |
| `Objects` | `objects.dfy` | `src/utils/object.ts` |
| `Strings` | `strings.dfy` | `src/utils/string.ts` |

Conventions:

- A value that may be `undefined` or `null` is `Std.Optional` (`Undefined`, `Null` or `Defined(value)`).
- A JavaScript `Error` that a helper throws becomes the `Err` variant of `Std.Result`, carrying the exact message the source throws. The library's own result record `{ ok, value | error }` is the same `Result` type.
- JavaScript arrays are sequences, and strings are sequences of characters.
- A plain object is the finite map from its own keys to their values.
- Numbers are mathematical reals.
- The helpers that loop and update an accumulator are methods with loop invariants.
  - `groupBy`, `partition`, `pick` and `omit` are proved equal to the functions that specify their results: `Arrays.Groups`, `Arrays.Filter`, `Objects.Picked` and `Objects.Omitted`.
  - `chunk`, `zip` and `entriesToObject` have no separate specification function. Their contracts fix the whole result directly: for `chunk`, the flattening, the chunk sizes and the count; for `zip`, the length and the pair at each index; for `entriesToObject`, the key set and the last value for each key.
- Everything else is a function, with lemmas stating its properties.

The word tokenizer is the centre of the string module. The model implements the global match of `/[A-Z]+(?![a-z])|[A-Z]?[a-z]+|\d+/g` on the trimmed value as a scan over positions:

- `Strings.MatchLength` is the length of the match that starts at one position. It models the alternatives in order, with the backtracking of `[A-Z]+` before a lowercase letter.
- `Strings.Scan` takes a match where one starts, resumes after it, and skips a position where none starts.

The lemmas prove the following about the tokens:

- Each token is a maximal match of one of the three alternatives, and the tokens are in order.
- Concatenated, the tokens are exactly the value's ASCII letters and digits.
- There are no tokens exactly when the value has no ASCII letter or digit.

## Model

| member | source | states |
|---|---|---|
| Std.IsDefined | src/utils/std.ts:3 | a value is defined exactly when it is neither `undefined` nor `null` |
| Std.Coalesce | src/utils/std.ts:7 | `a ?? fallback` is the value of `a` when it is defined, the fallback otherwise |
| Std.AssertDefined | src/utils/std.ts:5-10 | succeeds exactly for a defined value and returns that value; otherwise fails with the caller's message, or with "Value is undefined or null" when none is given |
| Std.Identity | src/utils/std.ts:12 | returns its argument unchanged |
| Std.Not | src/utils/std.ts:16-18 | the negated predicate answers the opposite of the original on every argument |
| Std.NotNot | src/utils/std.ts:16-18 | negating twice gives back the original answer on every argument |
| Std.MakeOk | src/utils/std.ts:53 | `ok(value)` is the success variant holding that value |
| Std.MakeErr | src/utils/std.ts:55 | `err(error)` is the failure variant holding that error |
| Numbers.Max | src/utils/number.ts:4 | `Math.max` is one of its arguments and at least both |
| Numbers.Min | src/utils/number.ts:4 | `Math.min` is one of its arguments and at most both |
| Numbers.Clamp | src/utils/number.ts:4 | for `min <= max` the result lies in [min, max], is the value when the value is in range and the nearer bound otherwise; for `min > max` the result is `max` |
| Numbers.FoldShift | src/utils/number.ts:17 | the reduce with a starting total is that total plus the sum |
| Numbers.SumConcat | src/utils/number.ts:17 | the sum of a concatenation is the sum of the two sums |
| Numbers.SumSnoc | src/utils/number.ts:17 | the empty sum is 0 and appending a value adds it to the sum |
| Numbers.SumBounds | src/utils/number.ts:17 | with every value in [lo, hi], the sum of n values lies in [n·lo, n·hi] |
| Numbers.Mean | src/utils/number.ts:23-28 | fails exactly on the empty list, with "Cannot compute mean of an empty array"; otherwise the result times the length is the sum |
| Numbers.MeanBounds | src/utils/number.ts:23-28 | the mean of a non-empty list of values in [lo, hi] lies in [lo, hi] |
| Numbers.MeanOfConstant | src/utils/number.ts:23-28 | the mean of a non-empty list of one repeated value is that value |
| Arrays.IndexOf | src/utils/array.ts:5-7 | the first position of an element: it holds the element and no earlier position does |
| Arrays.Filter | src/utils/array.ts:17-32 | `array.filter(keep)` is no longer than the array and holds exactly the kept elements of the array |
| Arrays.FilterIsSubsequence | src/utils/array.ts:17-32 | the filtered array keeps the array's order: it is a subsequence of it |
| Arrays.FilterMultiset | src/utils/array.ts:17-32 | a kept element occurs as often as in the array, and a dropped one never |
| Arrays.FilterConcat | src/utils/array.ts:17-32 | filtering a concatenation concatenates the filtered parts |
| Arrays.FilterAll | src/utils/array.ts:17-32 | filtering with a test every element passes changes nothing |
| Arrays.FilterNone | src/utils/array.ts:17-32 | filtering with a test no element passes gives the empty array |
| Arrays.FilterSplit | src/utils/array.ts:72-84 | filtering by a test and by its negation splits the array: the two results together are a permutation of it |
| Arrays.Unique | src/utils/array.ts:7 | the result has no duplicates and holds exactly the elements of the array |
| Arrays.UniqueOrder | src/utils/array.ts:5-7 | the result lists the elements in the order of their first occurrences |
| Arrays.UniqueOfDistinct | src/utils/array.ts:7 | an array without duplicates is its own `unique` |
| Arrays.UniqueIdempotent | src/utils/array.ts:7 | `unique` of `unique` is `unique` |
| Arrays.UniqueExample | src/utils/array.ts:7 | `unique([1, 2, 2, 3, 1])` is `[1, 2, 3]` |
| Arrays.UniqueIsSubsequence | src/utils/array.ts:7 | the result is a subsequence of the array |
| Arrays.IsEmpty | src/utils/array.ts:12 | true exactly for a defined array with no element; `undefined` and `null` answer false |
| Arrays.Without | src/utils/array.ts:17 | the value no longer occurs; every other element occurs as often as before, in the original order |
| Arrays.WithoutAll | src/utils/array.ts:22 | holds exactly the elements not among the values, each as often as before, in the original order |
| Arrays.Intersection | src/utils/array.ts:27 | holds exactly the elements of `a` that occur in `b`, each as often as in `a`, in `a`'s order |
| Arrays.Difference | src/utils/array.ts:32 | holds exactly the elements of `a` that do not occur in `b`, each as often as in `a`, in `a`'s order |
| Arrays.IntersectionDifferenceSplit | src/utils/array.ts:27-32 | intersection and difference with the same `b` together are a permutation of `a` |
| Arrays.DifferenceIsWithoutAll | src/utils/array.ts:22-32 | `difference(a, b)` and `withoutAll(a, b)` are the same array |
| Arrays.Slice | src/utils/array.ts:45 | `array.slice(start, end)` with the end cut back to the array's length, and an end before the start read as the start |
| Arrays.Chunk | src/utils/array.ts:38-49 | fails exactly when the size is not positive, with "chunk size must be greater than 0"; otherwise the chunks concatenate to the array, every chunk but the last has the size, the last has 1 to size elements, and there are ceil(n / size) chunks |
| Arrays.ChunkShape | src/utils/array.ts:44-46 | chunks of that shape covering n elements number ceil(n / size) |
| Arrays.Groups | src/utils/array.ts:54-66 | the grouping has a key for each key some element produces, and each key's group is the elements with that key in array order |
| Arrays.GroupsSnoc | src/utils/array.ts:56-62 | one more element creates its key's group when the key is new and is appended to that group; no other group changes |
| Arrays.GroupBy | src/utils/array.ts:54-66 | the reduce over the array builds exactly the grouping |
| Arrays.GroupBySizes | src/utils/array.ts:54-66 | the group sizes add up to the length of the array |
| Arrays.Partition | src/utils/array.ts:72-84 | the first list is the elements that pass, the second those that fail, both in array order, and together they are a permutation of the array |
| Arrays.Zip | src/utils/array.ts:89-97 | the result is as long as the shorter array and pairs the elements at each index |
| Objects.Clone | src/utils/object.ts:1 | the result has the keys of both objects; an overridden key holds the override and any other key keeps the object's value |
| Objects.CloneLaws | src/utils/object.ts:1 | cloning with no overrides copies the object; applying the same overrides again changes nothing |
| Objects.IsShallowEqualIff | src/utils/object.ts:3-12 | shallow equality holds exactly when the two objects have the same keys with the same values |
| Objects.ShallowEqualNeedsSameSize | src/utils/object.ts:7-9 | objects with different key counts are never shallowly equal |
| Objects.IsShallowEqualReflexiveSymmetric | src/utils/object.ts:3-12 | shallow equality is reflexive and symmetric |
| Objects.Picked | src/utils/object.ts:14-24 | the picked object has exactly the listed keys the object owns, with the object's values |
| Objects.Pick | src/utils/object.ts:14-24 | the reduce over the key list builds exactly the picked object |
| Objects.PickIdempotent | src/utils/object.ts:14-24 | picking the same keys again changes nothing |
| Objects.Omitted | src/utils/object.ts:26-34 | the result has exactly the object's keys that are not listed, with the object's values |
| Objects.Omit | src/utils/object.ts:26-34 | the reduce over the object's keys builds exactly the omitted object |
| Objects.OmitPickSplit | src/utils/object.ts:14-34 | `omit` and `pick` with the same keys give disjoint objects that together are the original |
| Objects.EntriesToObject | src/utils/object.ts:36-41 | the keys are exactly the entries' keys, and each key holds the value of its last entry |
| Strings.ToUpper | src/utils/string.ts:7 | a lowercase ASCII letter becomes its capital; every other character is unchanged |
| Strings.ToLower | src/utils/string.ts:20 | a capital ASCII letter becomes its lowercase letter; every other character is unchanged |
| Strings.LowerCase | src/utils/string.ts:20 | the result has the same length, with each character lowercased |
| Strings.LowerCaseConcat | src/utils/string.ts:20 | lowercasing distributes over concatenation |
| Strings.Capitalize | src/utils/string.ts:7 | same length; a non-empty string has its first character uppercased and the rest unchanged |
| Strings.WhitespaceNotWordChar | src/utils/string.ts:10-15 | no character `trim` removes is an ASCII letter or digit |
| Strings.LeadingEnd | src/utils/string.ts:10 | the end of the whitespace run from a position: all whitespace before it, none at it |
| Strings.TrailingStart | src/utils/string.ts:10 | the start of the whitespace run that ends at a position: all whitespace after it, none just before it |
| Strings.TrimWhitespace | src/utils/string.ts:10 | `value.trim()` is the slice after the leading whitespace with only whitespace after it, and it neither starts nor ends with whitespace |
| Strings.TrimWhitespaceIdempotent | src/utils/string.ts:10 | trimming twice is trimming once |
| Strings.NothingToTrim | src/utils/string.ts:10 | a string that neither starts nor ends with whitespace is its own trim |
| Strings.TrimWhitespaceEmpty | src/utils/string.ts:10-11 | the trim is "" exactly when the string is all whitespace |
| Strings.TrimKeepsWordChars | src/utils/string.ts:10 | trimming keeps every ASCII letter and digit |
| Strings.Run | src/utils/string.ts:15 | a character-class run: inside the string, all of the class, and not followed by that class |
| Strings.MatchLength | src/utils/string.ts:15 | the match at a position stays inside the string and is empty exactly when the character there is no ASCII letter or digit |
| Strings.MatchIsWordSpan | src/utils/string.ts:15 | a match is made of letters and digits and ends at a boundary; from a boundary it is a maximal match of one of the three alternatives |
| Strings.Matches | src/utils/string.ts:15 | the table of match lengths has one entry for each position, and every match ends inside the string |
| Strings.MatchesFacts | src/utils/string.ts:15 | every entry of the table is such a match |
| Strings.Scan | src/utils/string.ts:15 | the spans of the global match lie at or after the scan's start, inside the string, and are non-empty |
| Strings.ScanWordSpans | src/utils/string.ts:15 | from a boundary, every span of the global match is a match of one of the three alternatives |
| Strings.ScanOrdered | src/utils/string.ts:15 | the spans of the global match follow each other without overlapping |
| Strings.ScanCoversWordChars | src/utils/string.ts:15 | the spans of the global match, concatenated, are exactly the letters and digits from the scan's start on |
| Strings.Slices | src/utils/string.ts:15 | one word per span, each the text of its span |
| Strings.SplitWordsSpans | src/utils/string.ts:9-16 | the words are the text of non-overlapping spans of the trimmed value, in order, each a maximal match of one of the three alternatives |
| Strings.SplitWordsShapes | src/utils/string.ts:9-16 | every word is a run of capitals, a capital or nothing followed by lowercase letters, or a run of digits |
| Strings.SplitWordsCoverage | src/utils/string.ts:9-16 | the words, concatenated, are exactly the value's ASCII letters and digits |
| Strings.SplitWordsSubsequence | src/utils/string.ts:9-16 | the words, concatenated, are a subsequence of the value |
| Strings.SplitWordsNonEmpty | src/utils/string.ts:15 | no word is empty |
| Strings.SplitWordsEmpty | src/utils/string.ts:9-16 | there are no words exactly when the value has no ASCII letter or digit, so in particular for a blank value |
| Strings.SplitWordsHTMLParser | src/utils/string.ts:15 | "HTMLParser" splits into "HTML" and "Parser" |
| Strings.SplitWordsABc | src/utils/string.ts:15 | "ABc" splits into "A" and "Bc" |
| Strings.SplitWordsFooBar2 | src/utils/string.ts:15 | "fooBar2" splits into "foo", "Bar" and "2" |
| Strings.SplitWordsHelloWorld | src/utils/string.ts:9-16 | "HelloWorld" splits into "Hello" and "World" |
| Strings.SplitWordsHelloSpaceWorld | src/utils/string.ts:9-16 | "hello world" splits into "hello" and "world" |
| Strings.JoinEmptySeparator | src/utils/string.ts:31 | `join('')` concatenates the words |
| Strings.JoinEmpty | src/utils/string.ts:21 | the join of non-empty words is "" exactly when there are no words |
| Strings.JoinChars | src/utils/string.ts:21 | every character of a join is a character of a word or of the separator |
| Strings.JoinDropSeparator | src/utils/string.ts:21 | deleting a one-character separator that no word contains from the join gives the concatenated words |
| Strings.LowerWords | src/utils/string.ts:20 | one lowercased word for each word |
| Strings.FlattenLowerWords | src/utils/string.ts:20 | lowercasing each word, then concatenating, is lowercasing the concatenation |
| Strings.LowerWordShape | src/utils/string.ts:20 | a lowercased word is non-empty and holds only lowercase letters and digits |
| Strings.SlugWords | src/utils/string.ts:18-22 | the lowercased words are non-empty and hold only lowercase letters and digits |
| Strings.SlugifyChars | src/utils/string.ts:18-22 | every character of a slug is a lowercase letter, a digit or a separator character; with a separator that holds no capital, the slug holds no capital |
| Strings.SlugifyEmpty | src/utils/string.ts:18-22 | a slug is "" exactly when the value has no ASCII letter or digit |
| Strings.SlugifyLetters | src/utils/string.ts:18-22 | with a one-character separator that is no letter or digit, stripping the separators leaves the value's letters and digits, lowercased |
| Strings.SnakeCaseProperties | src/utils/string.ts:37 | `snakeCase` has no capital; without the underscores it is the value's letters and digits, lowercased; it is "" exactly when the value has no letter or digit |
| Strings.KebabCaseProperties | src/utils/string.ts:42 | `kebabCase` has no capital; without the hyphens it is the value's letters and digits, lowercased; it is "" exactly when the value has no letter or digit |
| Strings.SnakeCaseHelloWorld | src/utils/string.ts:37 | `snakeCase("HelloWorld")` is "hello_world" |
| Strings.KebabCaseFooBar2 | src/utils/string.ts:42 | `kebabCase("fooBar2")` is "foo-bar-2" |
| Strings.CapitalizedWords | src/utils/string.ts:31 | each later word is lowercased, then capitalised |
| Strings.CamelParts | src/utils/string.ts:31 | the first word lowercased, each later word lowercased and capitalised |
| Strings.LowerCapitalize | src/utils/string.ts:31 | a capitalised lowercased word lowercases back to the lowercased word |
| Strings.CamelPartsLower | src/utils/string.ts:31 | the parts differ from the words only in case |
| Strings.CamelPartsFlatten | src/utils/string.ts:31 | the joined parts spell the concatenated words up to case |
| Strings.CamelJoin | src/utils/string.ts:31 | the join of the parts of non-empty words is non-empty and spells the words up to case |
| Strings.CamelPartsNonEmpty | src/utils/string.ts:31 | the parts of non-empty words are non-empty |
| Strings.CamelCaseProperties | src/utils/string.ts:24-32 | `camelCase` is "" exactly when the value has no letter or digit, and it spells the value's letters and digits up to case |
| Strings.CamelCaseStartsLower | src/utils/string.ts:24-32 | `camelCase` does not start with a capital |
| Strings.CamelCaseHelloWorld | src/utils/string.ts:47 | `camelCase("hello world")` is "helloWorld" |
| Strings.Trim | src/utils/string.ts:152 | `trim` gives "" for `undefined` and `null`, and the trimmed string otherwise |
| Strings.IsBlankIff | src/utils/string.ts:157 | a string is blank exactly when it is absent or all whitespace |
| Strings.IsNotBlankNegatesIsBlank | src/utils/string.ts:157-162 | `isNotBlank` is the negation of `isBlank`, and a string is blank exactly when `trim` gives "" |

## Left out

- `src/utils/date.ts` is not part of this model.
- The base64 helpers of `src/utils/string.ts` are not modelled. They depend on the host's `btoa`/`atob` or `Buffer`.
- The type guards and `noop` of `src/utils/std.ts` are not modelled. The guards test JavaScript runtime types, which a typed model has no counterpart for.
- `roundTo`, `toPercentage` and `formatNumber` of `src/utils/number.ts` are not modelled. They depend on IEEE-754 rounding, `toFixed` and `Intl.NumberFormat`.
- Numbers.Clamp, Numbers.Sum, Numbers.Mean: numbers are reals, so IEEE-754 rounding, overflow to infinity, NaN and the order of floating-point additions are not modelled.
- Strings.ToUpper, Strings.ToLower, Strings.LowerCase, Strings.Capitalize: case mapping covers ASCII letters only. JavaScript maps all of Unicode, and a few characters change length (`"ß".toUpperCase()` is `"SS"`). The tokens are ASCII letters and digits, so only `capitalize` on arbitrary text is affected.
- Strings.Capitalize: characters are Unicode scalar values, not UTF-16 code units. `charAt(0)` of a string that starts with a surrogate pair is not modelled.
- Numbers.Fold, Numbers.Sum, Objects.IsShallowEqual, Strings.IsWhitespace, Strings.Join, Strings.IsBlank, Strings.IsNotBlank, Strings.SplitWords, Strings.Slugify, Strings.SnakeCase, Strings.KebabCase, Strings.Camelize, Strings.CamelCase: these are definitions with no contract of their own, so they have no row in the table. Each one's properties are proved by the lemmas named here:
  - `Numbers.Fold` and `Numbers.Sum` define the reduce of `sum` (src/utils/number.ts:17). Their properties are `Numbers.FoldShift`, `Numbers.SumConcat`, `Numbers.SumSnoc` and `Numbers.SumBounds`.
  - `Objects.IsShallowEqual` defines `isShallowEqual` (src/utils/object.ts:3-12). Its properties are `Objects.IsShallowEqualIff`, `Objects.ShallowEqualNeedsSameSize` and `Objects.IsShallowEqualReflexiveSymmetric`.
  - `Strings.IsWhitespace` defines the characters `trim` removes (src/utils/string.ts:10, 152). Its properties are `Strings.WhitespaceNotWordChar`, the contract of `Strings.TrimWhitespace`, `Strings.TrimWhitespaceIdempotent` and `Strings.NothingToTrim`.
  - `Strings.Join` defines `Array.prototype.join` (src/utils/string.ts:21, 31). Its properties are `Strings.JoinEmptySeparator`, `Strings.JoinEmpty`, `Strings.JoinChars`, `Strings.JoinDropSeparator`, `Strings.JoinTwo` and `Strings.JoinThree`.
  - `Strings.IsBlank` and `Strings.IsNotBlank` define `isBlank` and `isNotBlank` (src/utils/string.ts:157, 162). Their properties are `Strings.IsBlankIff` and `Strings.IsNotBlankNegatesIsBlank`.
  - `Strings.SplitWords` defines `splitWords` (src/utils/string.ts:9-16). Its properties are the `Strings.SplitWords*` lemmas.
  - `Strings.Slugify`, `Strings.SnakeCase` and `Strings.KebabCase` define `slugify`, `snakeCase` and `kebabCase` (src/utils/string.ts:18-22, 37, 42). Their properties are the `Strings.Slugify*`, `Strings.SnakeCase*` and `Strings.KebabCase*` lemmas.
  - `Strings.Camelize` and `Strings.CamelCase` define `camelize` and `camelCase` (src/utils/string.ts:24-32, 47). Their properties are the `Strings.CamelCase*` lemmas.
- Strings.MatchLength: the regular-expression engine is not modelled. The match of the three alternatives at one position is written out by hand, including the backtracking of `[A-Z]+` before a lowercase letter.
- Objects.Omit: the order of `Object.keys` is not modelled. The model visits the keys in an unspecified order, and objects are maps with no key order.
- Arrays.GroupBy and Objects.EntriesToObject: the order of keys in the resulting object is not modelled.
- Arrays.GroupBy, Objects.EntriesToObject, Objects.Picked, Objects.Pick, Objects.Omitted, Objects.Omit, Objects.OmitPickSplit: every key starts absent in the model, and every assignment creates an own property. In JavaScript, the accumulator `{}` inherits members of `Object.prototype`, and this changes three things:
  - In `groupBy` (src/utils/array.ts:58-61), a key such as `"toString"`, `"constructor"` or `"__proto__"` finds the inherited member. `isDefined` holds for it, so no group is created. `acc[key].push(item)` then calls an undefined method and throws a TypeError. The model returns a group for that key where JavaScript throws.
  - In `entriesToObject` (src/utils/object.ts:38), assigning to `"__proto__"` sets the prototype or is ignored, and no own property is created. The model stores the entry under that key.
  - In `pick` and `omit` (src/utils/object.ts:18 and 30), the same assignment `acc[key] = object[key]` meets the same setter. An object can own an enumerable `"__proto__"` property, as `JSON.parse('{"__proto__":1}')` does. `hasOwnProperty` (src/utils/object.ts:17) and `Object.keys` (src/utils/object.ts:28) both report that key, yet the assignment creates no own property. So `pick(o, ["__proto__"])` and `omit(o, [])` are both `{}` in JavaScript, where the model gives `map["__proto__" := 1]`. The split that `OmitPickSplit` proves fails in JavaScript for such an object.
- Arrays.Chunk: the size is an integer. A fractional or NaN size, which JavaScript accepts, is not modelled.
- Std.Not: the wrapped predicate takes one argument. JavaScript's rest-parameter forwarding of any number of arguments is modelled by a single argument, which may be a tuple.
- Arrays.Unique, Arrays.Without, Arrays.WithoutAll, Arrays.Intersection, Arrays.Difference, Objects.IsShallowEqualIff, Objects.IsShallowEqualReflexiveSymmetric: values are compared with Dafny equality.
  - The SameValueZero comparison of `Set` and `includes` is not modelled. Under it NaN equals NaN; this affects `unique`, `withoutAll`, `intersection` and `difference`.
  - The `===` comparison of `without` and `isShallowEqual` is not modelled. Under it NaN differs from itself, so in JavaScript `isShallowEqual(a, a)` is false when `a` holds NaN. Reflexivity holds only for values whose equality is reflexive.
- Objects.Clone: only own enumerable properties are modelled. Getters and symbol keys are not.
- Objects.Omitted, Objects.Omit, Objects.OmitPickSplit: `omit` compares the strings from `Object.keys` with the listed keys by SameValueZero in `omitSet.has(key)` (src/utils/object.ts:27-29), without converting the listed keys to strings. So a listed key that is not a string is never omitted in JavaScript: `omit({1: 'x'}, [1])` is `{ '1': 'x' }`, where the model's `Omitted(map[1 := "x"], [1])` is empty. `pick` converts the key inside `hasOwnProperty` (src/utils/object.ts:17), so `pick({1: 'x'}, [1])` is `{ '1': 'x' }` as well, and the two results overlap. The split that `OmitPickSplit` proves therefore holds in JavaScript only when every listed key is a string.
- Objects.EntriesToObject, Arrays.GroupBy: JavaScript converts every property key that is not a symbol to a string, so `1` and `"1"` name the same property. `entriesToObject([[1, 'a'], ['1', 'b']])` is `{ '1': 'b' }`, and `groupBy` puts items with keys `1` and `"1"` into one group. The model keeps such keys apart whenever the key type distinguishes them.
- Objects.Omit, Objects.IsShallowEqual, Objects.OmitPickSplit: `Object.keys` lists only own enumerable string keys, and `pick` tests keys with `hasOwnProperty`. The model has no symbol keys and no non-enumerable keys. In JavaScript, `omit(o, [])` drops a symbol-keyed property, and `isShallowEqual` ignores such properties. So "omit and pick together give the original" needs, in JavaScript, that the object's own keys are all enumerable strings. This condition alone is not enough: the `Objects.Omitted` line adds a condition on the listed keys.
