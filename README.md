# little-wheels core, modelled in Dafny

This project models three utilities of the `io.github.tonybro233.littlewheels.common`
package and proves properties of them.

- **PageWrapper** takes an in-memory list and an optional Spring `Pageable` and returns
  one page of it. It works in four steps:
  1. It copies the list.
  2. It stable-sorts the copy. Each `Sort.Order` becomes a `GetterComparator` that reads
     a property through a getter found by reflection on the first element's class. The
     orders are chained lexicographically by `ComparatorChain`.
  3. It "rationalizes" the request: the page size is at least 1, a page number above the
     page count becomes the last page, and a negative one becomes 0.
  4. It slices out the requested window.
- **SnowFlake** generates 64-bit ids. An id packs the milliseconds since a fixed epoch,
  a 5-bit datacenter id, a 5-bit worker id and a 12-bit per-millisecond sequence.
- **RandomSubListUtils** draws `n` distinct positions of a list by swap-remove from a
  candidate array. It then returns the elements at those positions, optionally in
  ascending position order.

Modules, one per concern:

| file | module | what it holds |
|---|---|---|
| `results.dfy` | `Results` | `Option` and `Result` |
| `java_ints.dfy` | `JavaInts` | Java `int`: the range, narrowing casts, truncating `%`, `Math.abs` |
| `strings.dfy` | `JavaStrings` | UTF-16 code units, `String.compareTo` on them, `compareToIgnoreCase` (ASCII folding), `Integer.toString`, `Integer.compare` |
| `reflection.dfy` | `Reflection` | Classes as their supertypes and method lists, records, `Method.invoke`, `Introspector.decapitalize`, `findAllGetters` |
| `comparators.dfy` | `Comparators` | `Sort.Order`, `GetterComparator.compare`, `ComparatorChain.compare` |
| `sorting.dfy` | `Sorting` | Stable sorting by a comparator: the specification (`SortedBy`) and an in-place insertion sort (`StableSort`) |
| `paging.dfy` | `Paging` | `PageRequest`, `rationalization`, `sliceContent` |
| `page_wrapper.dfy` | `PageWrapper` | `sortContent` and `wrap` |
| `snowflake.dfy` | `Snowflake` | The `SnowFlake` class, `nextId`, `tilNextMillis`, the id layout |
| `random_sub_list.dfy` | `RandomSubLists` | `getRandomIndexes`, `getSortedRandomIndexes`, `randomSubList`, `sortedRandomSubList` |

The code mutates state in three places, and each is modelled in place:
- `sortContent` sorts an `array`.
- `nextId` updates the fields of a `SnowFlake` object.
- `getRandomIndexes` fills and swaps inside `array`s.

Each such method is proved equal to a specification function, and the properties are
proved about those functions.

Things that cannot be modelled directly become inputs:
- The system clock is a sequence of readings.
- `java.util.Random` is a sequence of `nextInt()` results (`draws`).
- Reflection is a class description: its name, the classes and interfaces it is
  assignable to, and its public methods in `getMethods()` order, each with the class
  that declares it. A record says what each zero-argument method returns for it.
- A Java string is a sequence of UTF-16 code units. A Dafny string is a sequence of
  Unicode scalar values, so `compareTo` compares the UTF-16 encodings.

Where this model follows the code rather than the documented design:
- Under `NATIVE` null handling the -1/1 null result is negated for `DESC` (`adjust` is
  set on those branches). So nulls come last under `DESC`, not first.
  `Comparators.DirectionReverses` and `PageWrapper.NullsAtRankEnd` state this.
- Only a page number strictly above `totalPages` is clamped. Page `totalPages` itself is
  kept, and `sliceContent` then returns the last `pageSize` elements. That window is not
  always the last page: for 25 elements and size 10 it is elements 15..24. See
  `Paging.TwentyFiveElements`.
- `findAllGetters` fills a `HashMap`, so the last getter for a property name wins.
- Getters come from the class of the first element. A null first element under a
  non-empty sort throws `NullPointerException`.
- A getter whose declared return type is not `Comparable` (primitives included) is
  compared through `toString`.

## Model

| member | source | states |
|---|---|---|
| JavaInts.ToInt32 | src/main/java/io/github/tonybro233/littlewheels/common/RandomSubListUtils.java:46 | An `int` narrowing keeps an in-range value and subtracts or adds 2^32 to a value at most 2^32 past the range |
| JavaInts.Abs | src/main/java/io/github/tonybro233/littlewheels/common/RandomSubListUtils.java:59 | `Math.abs` on an int is non-negative and equals plus or minus its argument, except that `Integer.MIN_VALUE` maps to itself |
| JavaInts.Rem | src/main/java/io/github/tonybro233/littlewheels/common/RandomSubListUtils.java:59 | Java's `%` by a positive divisor lies strictly between -d and d, takes the sign of the dividend, and is the Euclidean remainder of the magnitude, negated for a negative dividend |
| JavaStrings.CompareToAntisymmetric | src/main/java/io/github/tonybro233/littlewheels/common/PageWrapper.java:275-280 | `String.compareTo(s, t)` is the negation of `compareTo(t, s)` |
| JavaStrings.Utf16Injective | src/main/java/io/github/tonybro233/littlewheels/common/PageWrapper.java:279 | Two strings with the same UTF-16 code units are the same string |
| JavaStrings.CompareTo | src/main/java/io/github/tonybro233/littlewheels/common/PageWrapper.java:279 | `String.compareTo` returns 0 exactly for equal strings |
| JavaStrings.CompareToTransitive | src/main/java/io/github/tonybro233/littlewheels/common/PageWrapper.java:275-280 | `String.compareTo`'s "not after" relation is transitive |
| JavaStrings.CodeUnitOrder | src/main/java/io/github/tonybro233/littlewheels/common/PageWrapper.java:279 | `compareTo` orders by UTF-16 code units, not code points: U+FFFF comes after U+1F600, by 0xFFFF - 0xD83D |
| JavaStrings.Lower | src/main/java/io/github/tonybro233/littlewheels/common/PageWrapper.java:276-277 | Case folding keeps the length and folds each character on its own |
| JavaStrings.CompareToIgnoreCase | src/main/java/io/github/tonybro233/littlewheels/common/PageWrapper.java:276-277 | `compareToIgnoreCase` returns 0 exactly when the two strings agree once case-folded |
| JavaStrings.Digits | src/main/java/io/github/tonybro233/littlewheels/common/PageWrapper.java:225-230 | The decimal text of a number is a non-empty string of digit characters, and reading the digits back gives the number |
| JavaStrings.DecimalText | src/main/java/io/github/tonybro233/littlewheels/common/PageWrapper.java:225-230 | `Integer.toString` is non-empty, starts with '-' exactly for a negative number, and is digits after that; reading the text back gives the number |
| JavaStrings.DecimalTextInjective | src/main/java/io/github/tonybro233/littlewheels/common/PageWrapper.java:225-230 | Distinct numbers have distinct decimal texts |
| JavaStrings.IntegerCompare | src/main/java/io/github/tonybro233/littlewheels/common/PageWrapper.java:282 | `Integer.compareTo` is negative, zero or positive exactly when the first number is smaller, equal or larger, and lies in [-1, 1] |
| Reflection.Invoke | src/main/java/io/github/tonybro233/littlewheels/common/PageWrapper.java:214-222 | A successful `getter.invoke` needs a non-null instance of a class assignable to the getter's declaring class, and returns what that instance's getter returns, of the declared type. Conversely, such an instance with such a value always gives that value. Every failure reads as null |
| Reflection.Decapitalize | src/main/java/io/github/tonybro233/littlewheels/common/PageWrapper.java:184 | `Introspector.decapitalize` keeps a name whose first two characters are upper case and otherwise lowers the first character; the rest is unchanged |
| Reflection.IsGetter | src/main/java/io/github/tonybro233/littlewheels/common/PageWrapper.java:167-187 | A getter takes no parameters, is not static, does not return void, and its name starts with "get" or "is" |
| Reflection.PropertyName | src/main/java/io/github/tonybro233/littlewheels/common/PageWrapper.java:182-189 | The property is the name after "get" when it starts so, and otherwise after "is", with only its first character changed by decapitalising |
| Reflection.GetterNameExamples | src/main/java/io/github/tonybro233/littlewheels/common/PageWrapper.java:182-189 | `getName` exposes "name"; `issue` counts as an "is" getter for "sue"; `getClass` exposes "class" |
| Reflection.GetterNameEdgeExamples | src/main/java/io/github/tonybro233/littlewheels/common/PageWrapper.java:182-184 | A bare `get` exposes the empty name; `getURL` exposes "URL" unchanged |
| Reflection.NotGetterExamples | src/main/java/io/github/tonybro233/littlewheels/common/PageWrapper.java:167-177 | A method with a parameter, a static method, a void method, and a method named `name` are all skipped |
| Reflection.Getters | src/main/java/io/github/tonybro233/littlewheels/common/PageWrapper.java:163-194 | Each property in the table is mapped to a getter of the class that exposes that property name |
| Reflection.GettersDomain | src/main/java/io/github/tonybro233/littlewheels/common/PageWrapper.java:165-191 | A property is in the table exactly when some zero-argument, non-static, non-void `get`/`is` method exposes it |
| Reflection.GettersLastWins | src/main/java/io/github/tonybro233/littlewheels/common/PageWrapper.java:182-190 | The table holds the last getter in method order that exposes a property (`HashMap.put` overwrites) |
| Reflection.FindAllGetters | src/main/java/io/github/tonybro233/littlewheels/common/PageWrapper.java:163-194 | The loop over `getMethods()` with its three skips builds exactly the getter table |
| Comparators.Projected | src/main/java/io/github/tonybro233/littlewheels/common/PageWrapper.java:214-232 | The value compared is null exactly when the invocation gives null. A Comparable return type compares the invoked value itself; any other type compares its `toString` text, so only Comparable numeric getters compare as numbers |
| Comparators.CompareValues | src/main/java/io/github/tonybro233/littlewheels/common/PageWrapper.java:274-284 | Two non-null values: numbers compare by sign exactly as their order, text gives 0 exactly for equal strings, or for strings equal once case-folded under `ignoreCase` |
| Comparators.CompareOptional | src/main/java/io/github/tonybro233/littlewheels/common/PageWrapper.java:240-290 | Two nulls tie; a null against a value gives the null rank of the order (-1 under `NULLS_FIRST` and `NATIVE`+`ASC`, 1 under `NULLS_LAST` and `NATIVE`+`DESC`), negated with the arguments swapped; two values compare as their value comparison under `ASC` and as its negation under `DESC` |
| Comparators.CompareKey | src/main/java/io/github/tonybro233/littlewheels/common/PageWrapper.java:213-293 | `GetterComparator.compare` gives 0 for a record against itself, and places a record whose getter gives null at the null rank of the order against one whose getter gives a value; when both getters give values it returns their comparison under `ASC` and its negation under `DESC` |
| Comparators.ValuesAntisymmetric | src/main/java/io/github/tonybro233/littlewheels/common/PageWrapper.java:274-284 | Comparing two non-null values (text, ignoring case or not, or numbers) is antisymmetric |
| Comparators.ValuesTransitive | src/main/java/io/github/tonybro233/littlewheels/common/PageWrapper.java:274-284 | Comparing two non-null values is transitive |
| Comparators.KeyAntisymmetric | src/main/java/io/github/tonybro233/littlewheels/common/PageWrapper.java:213-293 | `GetterComparator.compare(a, b)` is the negation of `compare(b, a)`, for every null handling and direction |
| Comparators.KeyTransitive | src/main/java/io/github/tonybro233/littlewheels/common/PageWrapper.java:213-293 | `GetterComparator`'s "not after" relation is transitive, including the null cases and `DESC` |
| Comparators.PrimitiveNumbersCompareAsText | src/main/java/io/github/tonybro233/littlewheels/common/PageWrapper.java:224-231 | A primitive `int` getter is not Comparable, so its values compare as text: 10 sorts before 9 ascending, while a boxed `Integer` getter puts 9 first |
| Comparators.NullsTie | src/main/java/io/github/tonybro233/littlewheels/common/PageWrapper.java:214-243 | Two null values tie, and a null element compares like an element whose getter returns null |
| Comparators.DirectionReverses | src/main/java/io/github/tonybro233/littlewheels/common/PageWrapper.java:287-290 | Switching the direction negates every result under `NATIVE`; under `NULLS_FIRST`/`NULLS_LAST` it negates only value-against-value results |
| Comparators.Chain | src/main/java/io/github/tonybro233/littlewheels/common/PageWrapper.java:305-313 | `ComparatorChain.compare` gives 0 for a record against itself, and any non-zero result is the result of one of its comparators |
| Comparators.ChainCompare | src/main/java/io/github/tonybro233/littlewheels/common/PageWrapper.java:305-313 | The loop returning the first non-zero comparator result computes `Chain` |
| Comparators.ChainFirstDifferenceDecides | src/main/java/io/github/tonybro233/littlewheels/common/PageWrapper.java:305-313 | The chain is lexicographic: the first comparator that does not tie decides |
| Comparators.ChainTieIffAllTie | src/main/java/io/github/tonybro233/littlewheels/common/PageWrapper.java:305-313 | The chain returns 0 exactly when every comparator ties |
| Comparators.ChainAntisymmetric | src/main/java/io/github/tonybro233/littlewheels/common/PageWrapper.java:305-313 | The chain is antisymmetric |
| Comparators.ChainTransitive | src/main/java/io/github/tonybro233/littlewheels/common/PageWrapper.java:305-313 | The chain's "not after" relation is transitive |
| Comparators.ChainTieTransitive | src/main/java/io/github/tonybro233/littlewheels/common/PageWrapper.java:305-313 | Ties under the chain are transitive |
| Sorting.TiesAreFrom | src/main/java/io/github/tonybro233/littlewheels/common/PageWrapper.java:79 | The tie group of x holds only elements of the list that tie with x |
| Sorting.InsertPermutes | src/main/java/io/github/tonybro233/littlewheels/common/PageWrapper.java:79 | Inserting x into a list adds exactly x |
| Sorting.SortedBy | src/main/java/io/github/tonybro233/littlewheels/common/PageWrapper.java:79 | `List.sort` keeps the list's length and is a permutation of it; `Sorting.SortedByIsStableSort` adds that it is sorted and stable |
| Sorting.InsertKeepsSorted | src/main/java/io/github/tonybro233/littlewheels/common/PageWrapper.java:79 | Under a comparator meeting the `Comparator` contract, inserting into a sorted list keeps it sorted |
| Sorting.InsertTies | src/main/java/io/github/tonybro233/littlewheels/common/PageWrapper.java:79 | Inserting y appends y to the tie group of x when y ties with x and changes no tie group otherwise |
| Sorting.SortedByIsStableSort | src/main/java/io/github/tonybro233/littlewheels/common/PageWrapper.java:79 | `List.sort` yields a sorted permutation in which every tie group keeps its input order |
| Sorting.SameLast | src/main/java/io/github/tonybro233/littlewheels/common/PageWrapper.java:79 | Two sorted lists with the same tie groups end in the same element |
| Sorting.StableOrderIsUnique | src/main/java/io/github/tonybro233/littlewheels/common/PageWrapper.java:79 | Two sorted lists with the same tie groups are equal |
| Sorting.StableSortIsDetermined | src/main/java/io/github/tonybro233/littlewheels/common/PageWrapper.java:79 | Every stable sort of a list, `List.sort`'s TimSort included, gives the same result as `SortedBy` |
| Sorting.StableSort | src/main/java/io/github/tonybro233/littlewheels/common/PageWrapper.java:79 | Sorting the array in place leaves `SortedBy` of its old contents |
| Sorting.InsertLast | src/main/java/io/github/tonybro233/littlewheels/common/PageWrapper.java:79 | One insertion step places a[i] into the sorted prefix as `Insert` does and leaves the rest of the array alone |
| Sorting.InsertAt | src/main/java/io/github/tonybro233/littlewheels/common/PageWrapper.java:79 | Insertion puts x right after the last element not ordered after it |
| Paging.TotalPages | src/main/java/io/github/tonybro233/littlewheels/common/PageWrapper.java:99 | The page count is the ceiling of size / pageSize: 0 only for an empty list, and the pages just cover the list |
| Paging.CeilingDivision | src/main/java/io/github/tonybro233/littlewheels/common/PageWrapper.java:99 | The integer ceiling of size / d: 0 exactly for size 0, the smallest t with size <= t * d, and at most size |
| Paging.Rationalize | src/main/java/io/github/tonybro233/littlewheels/common/PageWrapper.java:88-109 | The page size is the requested one (or the list size without a request) floored at 1; the page number lies in [0, totalPages]; the sort is kept |
| Paging.RationalizeKeepsValidRequests | src/main/java/io/github/tonybro233/littlewheels/common/PageWrapper.java:98-105 | A page number in [0, totalPages] (pages counted at size max(1, pageSize)) is kept whatever the page size, page totalPages included; with a positive size the whole request is unchanged |
| Paging.RationalizeClampsPastEnd | src/main/java/io/github/tonybro233/littlewheels/common/PageWrapper.java:102-105 | A page number above the page count becomes the last page (page 0 for an empty list) |
| Paging.RationalizeFloorsNegative | src/main/java/io/github/tonybro233/littlewheels/common/PageWrapper.java:105 | A negative page number becomes 0 |
| Paging.RationalizeDefault | src/main/java/io/github/tonybro233/littlewheels/common/PageWrapper.java:92-95 | Without a request the result is page 0 with no sort, and a single page holds the whole list |
| Paging.RationalizeIdempotent | src/main/java/io/github/tonybro233/littlewheels/common/PageWrapper.java:88-109 | Rationalizing a rationalized request changes nothing |
| Paging.SubList | src/main/java/io/github/tonybro233/littlewheels/common/PageWrapper.java:154 | `subList(from, to)` succeeds exactly when 0 <= from <= to <= size; it returns the elements from..to-1 |
| Paging.SliceContent | src/main/java/io/github/tonybro233/littlewheels/common/PageWrapper.java:118-155 | A slice is part of the list and holds at most pageSize elements; it fails only for a non-empty list under a request with a positive page size |
| Paging.SliceIsWindow | src/main/java/io/github/tonybro233/littlewheels/common/PageWrapper.java:126-154 | When the offset and its end fit in an int, the slice is exactly the window [WindowStart, WindowEnd): the requested page, or the last pageSize elements once the offset passes the end |
| Paging.RationalizedSliceSucceeds | src/main/java/io/github/tonybro233/littlewheels/common/PageWrapper.java:40-41 | For lists of at most 2^30 elements, slicing by a rationalized request never fails |
| Paging.NoIntOverflow | src/main/java/io/github/tonybro233/littlewheels/common/PageWrapper.java:127-140 | For such lists a rationalized offset, and its end while the offset is inside the list, fit in an int |
| Paging.AlignedPages | src/main/java/io/github/tonybro233/littlewheels/common/PageWrapper.java:139-151 | Pages below the page count are consecutive, non-empty and aligned at p * pageSize; the last one ends at the list's end |
| Paging.PageAfterLastIsTail | src/main/java/io/github/tonybro233/littlewheels/common/PageWrapper.java:143-149 | Page totalPages gives the last pageSize elements of the list (all of them when the list is shorter) |
| Paging.TwentyFiveElements | src/test/java/io/github/tonybro233/littlewheels/common/PageWrapperTest.java:28-40 | For 25 elements and page size 10: page 2 is elements 20..24, page 3 is elements 15..24, page 9 is elements 20..24 |
| PageWrapper.ChainIsTotalPreorder | src/main/java/io/github/tonybro233/littlewheels/common/PageWrapper.java:296-313 | `ComparatorChain` meets the `Comparator` contract: antisymmetric and transitive |
| PageWrapper.ResolveKeys | src/main/java/io/github/tonybro233/littlewheels/common/PageWrapper.java:69-76 | The comparator list is empty exactly when no order of the sort names a property with a getter |
| PageWrapper.ResolveKeysAreKnown | src/main/java/io/github/tonybro233/littlewheels/common/PageWrapper.java:69-72 | Each comparator built pairs an order of the sort with the getter of its property |
| PageWrapper.ResolveKeysKeepsKnownOrders | src/main/java/io/github/tonybro233/littlewheels/common/PageWrapper.java:69-72 | Any two orders whose properties have getters both become comparators, in their original relative order |
| PageWrapper.ResolveKeysKeepsKnown | src/main/java/io/github/tonybro233/littlewheels/common/PageWrapper.java:69-72 | No order whose property has a getter is dropped |
| PageWrapper.SortKeys | src/main/java/io/github/tonybro233/littlewheels/common/PageWrapper.java:57-67 | Resolving the comparators fails, with a `NullPointerException`, exactly when the list is non-empty, the sort has orders and the first element is null; otherwise there is at most one comparator per order |
| PageWrapper.SortedContent | src/main/java/io/github/tonybro233/littlewheels/common/PageWrapper.java:57-80 | `sortContent` permutes the list, and fails exactly when the first element is null while the sort has orders |
| PageWrapper.SortedContentIsStableSort | src/main/java/io/github/tonybro233/littlewheels/common/PageWrapper.java:69-79 | The sorted list is sorted by the comparator chain, a permutation of the list, and keeps every tie group in list order |
| PageWrapper.NoKeysNoOrder | src/main/java/io/github/tonybro233/littlewheels/common/PageWrapper.java:58-63 | With an empty list, an empty sort or no order with a getter, the list is left as it is |
| PageWrapper.NullsAtRankEnd | src/main/java/io/github/tonybro233/littlewheels/common/PageWrapper.java:243-290 | After sorting, elements whose primary key is null come after every non-null one under `NULLS_LAST` and under `NATIVE`+`DESC`, and before them otherwise |
| PageWrapper.SortContent | src/main/java/io/github/tonybro233/littlewheels/common/PageWrapper.java:57-80 | The in-place sort fails exactly as `SortedContent` does, leaves the array alone on failure and holds `SortedContent` on success |
| PageWrapper.Paginate | src/main/java/io/github/tonybro233/littlewheels/common/PageWrapper.java:33-44 | A page reports the list size as its total, holds only list elements, and holds between 1 and pageSize of them unless the list is empty |
| PageWrapper.Wrap | src/main/java/io/github/tonybro233/littlewheels/common/PageWrapper.java:33-44 | `wrap` on the caller's array computes `Paginate` of its contents, sorting a copy and leaving the array as it was |
| PageWrapper.WrapFailsOnlyWhen | src/main/java/io/github/tonybro233/littlewheels/common/PageWrapper.java:33-44 | For lists of at most 2^30 elements, `wrap` fails exactly for an unpaged request, or for a null first element under a non-empty sort |
| PageWrapper.PageIsWindowOfSortedCopy | src/main/java/io/github/tonybro233/littlewheels/common/PageWrapper.java:38-43 | For lists of at most 2^30 elements, a request that is not unpaged and a first element that is not null under a non-empty sort, `wrap` succeeds. The page carries the rationalized request and the list size, and its content is the rationalized window of the stable-sorted copy |
| Snowflake.MasksAreLowBits | src/main/java/io/github/tonybro233/littlewheels/common/SnowFlake.java:71-101 | `-1 ^ (-1 << 5)` is 31 and `-1 ^ (-1 << 12)` is 4095 |
| Snowflake.MaskIsModulo | src/main/java/io/github/tonybro233/littlewheels/common/SnowFlake.java:132 | `& sequenceMask` is reduction modulo 4096 |
| Snowflake.ToLong | src/main/java/io/github/tonybro233/littlewheels/common/SnowFlake.java:143 | Narrowing to a long keeps an in-range value and otherwise differs from it by a multiple of 2^64 |
| Snowflake.IdBitsLayout | src/main/java/io/github/tonybro233/littlewheels/common/SnowFlake.java:143-146 | The four shifted fields do not overlap: or-ing them adds them, and shifting and masking recovers each field |
| Snowflake.Id | src/main/java/io/github/tonybro233/littlewheels/common/SnowFlake.java:143-146 | Within the 41-bit timestamp range and with fields in range, an id is a non-negative long |
| Snowflake.IdFields | src/main/java/io/github/tonybro233/littlewheels/common/SnowFlake.java:143-146 | Within the 41-bit timestamp range an id is non-negative, and its sequence, worker id, datacenter id and timestamp offset come back out of it |
| Snowflake.IdOrder | src/main/java/io/github/tonybro233/littlewheels/common/SnowFlake.java:130-146 | Ids of one generator increase with (timestamp, sequence) |
| Snowflake.FirstAfter | src/main/java/io/github/tonybro233/littlewheels/common/SnowFlake.java:149-155 | The first clock reading later than the given time is later, and every reading before it is not |
| Snowflake.TilNextMillis | src/main/java/io/github/tonybro233/littlewheels/common/SnowFlake.java:149-155 | The waiting loop returns the first reading later than `lastTimestamp` |
| Snowflake.SnowFlake.constructor | src/main/java/io/github/tonybro233/littlewheels/common/SnowFlake.java:19-36 | A generator built from in-range ids stores them and the initial sequence, with no id issued yet |
| Snowflake.SnowFlake.NextId | src/main/java/io/github/tonybro233/littlewheels/common/SnowFlake.java:120-147 | A clock behind the last timestamp fails with the gap and changes nothing. Otherwise the sequence increments modulo 4096 in the same millisecond or resets to 0. The stored timestamp is the current reading, or, when the sequence wraps to 0, the first later reading. The id encodes the new state and exceeds the previous id within the timestamp range |
| Snowflake.NewInstance | src/main/java/io/github/tonybro233/littlewheels/common/SnowFlake.java:15-28 | `newInstance` fails exactly when the worker id or the datacenter id lies outside [0, 31]; otherwise it returns a fresh generator with those ids and no id issued |
| RandomSubLists.Range | src/main/java/io/github/tonybro233/littlewheels/common/RandomSubListUtils.java:49-52 | The candidates are min, min + 1, ..., min + len - 1 |
| RandomSubLists.Pick | src/main/java/io/github/tonybro233/littlewheels/common/RandomSubListUtils.java:59 | `Math.abs(r % len)` is a position in [0, len) for every random int, `Integer.MIN_VALUE` included |
| RandomSubLists.Remove | src/main/java/io/github/tonybro233/littlewheels/common/RandomSubListUtils.java:61-63 | Taking a candidate shortens the pool by one |
| RandomSubLists.DrawFrom | src/main/java/io/github/tonybro233/littlewheels/common/RandomSubListUtils.java:57-64 | The remaining draws succeed exactly when the pool holds enough candidates, else divide by zero; on success they add one value per draw |
| RandomSubLists.Draw | src/main/java/io/github/tonybro233/littlewheels/common/RandomSubListUtils.java:54-64 | n draws succeed exactly when n <= pool size, else divide by zero; on success they yield n values |
| RandomSubLists.RemoveIsSwap | src/main/java/io/github/tonybro233/littlewheels/common/RandomSubListUtils.java:61-63 | Overwriting the taken slot with the last candidate, then shortening, is `Remove` |
| RandomSubLists.RemoveTakesOne | src/main/java/io/github/tonybro233/littlewheels/common/RandomSubListUtils.java:61-63 | A swap-remove loses exactly the candidate taken |
| RandomSubLists.DrawFromOutcome | src/main/java/io/github/tonybro233/littlewheels/common/RandomSubListUtils.java:57-64 | The remaining draws succeed exactly when the pool holds enough candidates, else divide by zero; they append one candidate per draw, none more often than the pool holds it |
| RandomSubLists.DrawOutcome | src/main/java/io/github/tonybro233/littlewheels/common/RandomSubListUtils.java:54-64 | n draws succeed exactly when n <= pool size, else divide by zero; on success they are n candidates, none taken more often than the pool holds it |
| RandomSubLists.DistinctCounts | src/test/java/io/github/tonybro233/littlewheels/common/RandomSubListUtilsTest.java:30-31 | A list without repeats holds each value at most once |
| RandomSubLists.DistinctOfSubMultiset | src/test/java/io/github/tonybro233/littlewheels/common/RandomSubListUtilsTest.java:30-31 | Values drawn from a list without repeats, none more often than it holds them, have no repeats |
| RandomSubLists.RandomIndexes | src/main/java/io/github/tonybro233/littlewheels/common/RandomSubListUtils.java:45-66 | `getRandomIndexes` succeeds exactly when 0 <= n <= len, len being max - min + 1 in int arithmetic, and then returns n indexes |
| RandomSubLists.RandomIndexesOutcome | src/main/java/io/github/tonybro233/littlewheels/common/RandomSubListUtils.java:45-66 | `getRandomIndexes` succeeds exactly when 0 <= n <= len (len in int arithmetic); a negative len or n is `NegativeArraySizeException`, n > len is division by zero; the result is n distinct indexes, inside [min, max] when min <= max + 1 |
| RandomSubLists.LengthDoesNotWrap | src/main/java/io/github/tonybro233/littlewheels/common/RandomSubListUtils.java:46 | With min <= max + 1, a positive int length `max - min + 1` is the exact length |
| RandomSubLists.Take | src/main/java/io/github/tonybro233/littlewheels/common/RandomSubListUtils.java:61-63 | One draw returns the chosen candidate and leaves the first len - 1 slots as `Remove` of the pool |
| RandomSubLists.Fill | src/main/java/io/github/tonybro233/littlewheels/common/RandomSubListUtils.java:49-52 | The fill loop writes min, min + 1, ... into the candidate array |
| RandomSubLists.GetRandomIndexes | src/main/java/io/github/tonybro233/littlewheels/common/RandomSubListUtils.java:45-66 | The array method computes `RandomIndexes`, with the fill loop bounded by the length (see Findings) |
| RandomSubLists.DrawInto | src/main/java/io/github/tonybro233/littlewheels/common/RandomSubListUtils.java:54-64 | The draw loop over the arrays computes `Draw` of the initial candidates |
| RandomSubLists.IntegerCompareIsTotalPreorder | src/main/java/io/github/tonybro233/littlewheels/common/RandomSubListUtils.java:70 | The ascending int order of `Arrays.sort`, `Integer.compare`, meets the comparator contract |
| RandomSubLists.SortedRandomIndexes | src/main/java/io/github/tonybro233/littlewheels/common/RandomSubListUtils.java:68-72 | `getSortedRandomIndexes` fails exactly as `getRandomIndexes` does, with the same error, and otherwise returns the same indexes |
| RandomSubLists.SortedRandomIndexesOutcome | src/main/java/io/github/tonybro233/littlewheels/common/RandomSubListUtils.java:68-72 | `getSortedRandomIndexes` fails exactly as `getRandomIndexes` does; on success its indexes are the drawn ones, strictly increasing and inside [min, max] when min <= max + 1 |
| RandomSubLists.SortedInRange | src/main/java/io/github/tonybro233/littlewheels/common/RandomSubListUtils.java:70 | Sorting keeps every index inside the bounds the drawn ones had |
| RandomSubLists.SortedDistinctIncreasing | src/main/java/io/github/tonybro233/littlewheels/common/RandomSubListUtils.java:70 | `Arrays.sort` on distinct ints keeps them and makes them strictly increasing |
| RandomSubLists.GetSortedRandomIndexes | src/main/java/io/github/tonybro233/littlewheels/common/RandomSubListUtils.java:68-72 | The method, which sorts the result array in place, computes `SortedRandomIndexes` |
| RandomSubLists.Picks | src/main/java/io/github/tonybro233/littlewheels/common/RandomSubListUtils.java:24-26 | One element is picked per index |
| RandomSubLists.PicksSubMultiset | src/main/java/io/github/tonybro233/littlewheels/common/RandomSubListUtils.java:24-26 | Distinct positions pick every element at most as often as the list holds it |
| RandomSubLists.PicksKeepOrder | src/main/java/io/github/tonybro233/littlewheels/common/RandomSubListUtils.java:37-42 | Elements picked at increasing positions keep the list's order |
| RandomSubLists.Collect | src/main/java/io/github/tonybro233/littlewheels/common/RandomSubListUtils.java:23-27 | The `tmp.add(list.get(idx))` loop computes `Picks` |
| RandomSubLists.RandomSubListOf | src/main/java/io/github/tonybro233/littlewheels/common/RandomSubListUtils.java:18-28 | `randomSubList` fails exactly when n < 0 or n > size, and otherwise returns n elements |
| RandomSubLists.RandomSubList | src/main/java/io/github/tonybro233/littlewheels/common/RandomSubListUtils.java:18-28 | The method computes `RandomSubListOf` |
| RandomSubLists.RandomSubListOutcome | src/main/java/io/github/tonybro233/littlewheels/common/RandomSubListUtils.java:18-28 | `randomSubList` fails exactly when n < 0 (`NegativeArraySizeException`) or n > size (`IndexOutOfBoundsException`). Otherwise it returns the elements at n distinct positions of the list, none more often than the list holds it, so distinct elements give a distinct sub-list |
| RandomSubLists.SortedRandomSubListOf | src/main/java/io/github/tonybro233/littlewheels/common/RandomSubListUtils.java:33-43 | `sortedRandomSubList` fails exactly when n < 0 or n > size, and otherwise returns n elements |
| RandomSubLists.SortedRandomSubList | src/main/java/io/github/tonybro233/littlewheels/common/RandomSubListUtils.java:33-43 | The method computes `SortedRandomSubListOf` |
| RandomSubLists.SortedRandomSubListOutcome | src/main/java/io/github/tonybro233/littlewheels/common/RandomSubListUtils.java:33-43 | `sortedRandomSubList` fails exactly as `randomSubList` does. Otherwise it returns the elements at n strictly increasing positions of the list, a subsequence, so a list sorted by any comparator gives a sorted sub-list |
| RandomSubLists.SourceAsWritten | src/main/java/io/github/tonybro233/littlewheels/common/RandomSubListUtils.java:48-52 | The fill loop as written gives len candidates: min, ..., min + len - 1 while min + len fits in an int, and all zeros once that sum overflows |
| RandomSubLists.RandomIndexesAsWritten | src/main/java/io/github/tonybro233/littlewheels/common/RandomSubListUtils.java:44-66 | `getRandomIndexes` as written succeeds exactly when 0 <= n <= len; a negative len or n is `NegativeArraySizeException`, n > len is division by zero; the result has n entries |
| RandomSubLists.AsWrittenAgreesWithoutOverflow | src/main/java/io/github/tonybro233/littlewheels/common/RandomSubListUtils.java:50-52 | While min + len fits in an int, the fill loop as written fills the candidates as intended |
| RandomSubLists.SubListsAreUnaffected | src/main/java/io/github/tonybro233/littlewheels/common/RandomSubListUtils.java:22 | With min = 0, as `randomSubList` and `sortedRandomSubList` call it, the loop as written agrees with the intended one |
| RandomSubLists.DrawFromZeros | src/main/java/io/github/tonybro233/littlewheels/common/RandomSubListUtils.java:57-64 | Drawing from candidates that are all 0 yields zeros |
| RandomSubLists.OverflowCounterexample | src/main/java/io/github/tonybro233/littlewheels/common/RandomSubListUtils.java:46-52 | For [2147483642, 2147483647] and n = 3 the code as written returns [0, 0, 0]; the intended one returns three distinct indexes in range |

## Left out

- Reflection itself is not modelled: `Class.getMethods`, `Method.invoke` and `setAccessible`. A class is described by its supertypes and its method list, and a record by what each of its getters returns.
- The `CLAZZ_GETTERS` cache (a `ConcurrentHashMap`) is left out. It memoises `findAllGetters` per class, which changes no result.
- `synchronized` on `nextId`, and thread safety in general, are left out. The model is single-threaded.
- SLF4J logging is left out.
- The `DEFAULT` static `SnowFlake` instance is left out. It is `newInstance(0, 0, 0)`.
- `getWorkerId`, `getDatacenterId` and `getTimestamp` are left out. They are plain field reads and a clock read.
- Spring's `PageRequest`, `Sort` and `PageImpl` are reduced to the fields `wrap` reads and builds: page number, page size, sort orders, content and total.
- Spring's own argument checks in `PageRequest.of` are left out. `PageRequest.of` with a null sort is modelled as an empty sort.
- A null `content` list is left out. It throws `NullPointerException` at `new ArrayList<>(content)`. The model's lists are never null, so the default page size of 10 for a null list is unreachable too.
- Sorting: `List.sort` is TimSort. The model sorts by insertion instead. `Sorting.StableSortIsDetermined` proves that every stable sort gives the same result, so the output is the same.
- Sorting: a comparator that breaks the `Comparator` contract is left out. TimSort may throw "Comparison method violates its general contract!" for one. `PageWrapper.ChainIsTotalPreorder` proves the chain never does this.
- JavaStrings.CompareToIgnoreCase: folds ASCII letters only. Unicode case mapping is left out, so two strings equal under `Character.toLowerCase(Character.toUpperCase(c))` but not under ASCII folding compare unequal here.
- Reflection.Decapitalize: tests and lowers only 'A'..'Z'. `Character.isUpperCase` and `Character.toLowerCase` cover all of Unicode, so for `getÉtat` Java gives the property `état` and the model `État`.
- Paging.CeilingDivision: `rationalization` computes `Math.ceil((double) size / (double) pageSize)`. The model uses the exact integer ceiling. For int operands the two agree: both operands are exact doubles, and a quotient that is not an integer lies at least 1/pageSize from every integer, more than the rounding error of the division (at most size / pageSize times 2^-53), so rounding never reaches an integer. The floating-point argument is not proved.
- Getter values are integers or text. `toString` of arbitrary objects is a string given by the record. `Integer.toString` is modelled.
- `Comparable` return types other than integers and `String` are left out. `Date`, `BigDecimal` and enums, for example, are not modelled.
- The system clock is an input: the readings `timeGen` returns, in order. `Snowflake.TilNextMillis` requires that some reading passes the last timestamp, because the source busy-waits until one does.
- `java.util.Random` is an input: the `nextInt()` values, one per draw. The model requires at least n of them.
- Snowflake.SnowFlake.NextId: the promise that ids increase is stated only while both timestamps lie in the 41-bit range after the epoch (until about 2072). Past it, the shifted timestamp wraps in the long.
- PageWrapper.WrapFailsOnlyWhen: the "never fails" half is stated only for lists of at most 2^30 elements. For longer lists, `(int) getOffset()` and `offset + pageSize` can overflow, and `SliceContent` models those overflows.
- RandomSubLists.Range: when `max - min + 1` wraps in int arithmetic (for example min = 2147483647 and max = -2147483648 give len 2), the corrected candidates `min + k` are unbounded integers rather than values wrapped to int, and `RandomSubLists.RandomIndexesOutcome` promises no range for the indexes in that case.
- The rest of the repository (SSL context factory, web, JPA and validation helpers) is not part of this model.

## Findings

| source | as written | input that shows it | evidently intended | confidence | as-written member | corrected member |
|---|---|---|---|---|---|---|
| src/main/java/io/github/tonybro233/littlewheels/common/RandomSubListUtils.java:50 | The fill loop runs `for (int i = min; i < min + len; i++)`. The bound `min + len` is an int sum, so when min + len > `Integer.MAX_VALUE` it wraps below `min` and the loop writes nothing. The candidates stay 0. | `getRandomIndexes(2147483642, 2147483647, 3)` returns [0, 0, 0] | three distinct indexes in [2147483642, 2147483647], filling by position (`i - min < len`) | not executed | RandomSubLists.OverflowCounterexample | RandomSubLists.RandomIndexesOutcome |
