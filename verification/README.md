# CrazyStreams in Dafny

A model of `CrazyStreams`, the class of sixteen Stream API queries over a collection of
bank accounts, in the `crazy-streams` exercise of java-core-exercises. Every query is a
pure function of the account collection. The collection is taken as an
encounter-ordered `seq<Account>`. A query that throws in Java returns a `Failure` of a
`Result` here, carrying the exception kind. The Java collectors the queries use are
modelled once and shared by the queries:

- `groupingBy` (`Grouping.GroupBy`);
- `toMap` (`Grouping.ToMap`);
- `counting()` (`Grouping.Counting`);
- `reducing(ZERO, add)` (`Grouping.Totals`);
- `joining` (`Strings.Join`).

The same goes for the library methods the queries call:

- `String.split` (`Strings.Split`);
- `String.compareTo`, over Unicode scalar values rather than UTF-16 units (`Strings.LexLe`);
- ASCII `toLowerCase` (`Strings.LowerAscii`);
- `int` addition (`JavaInt.Add`);
- the stable `sorted` (`NameOrder.Sort`).

Modules, in dependency order:

| file | module | models |
|---|---|---|
| results.dfy | `Results` | `Option`, `Result` and the exceptions the queries can raise |
| seqs.dfy | `Seqs` | `filter`, `map`, `flatMap` and sums over sequences |
| java_int.dfy | `JavaInt` | 32-bit `int` addition with wrap-around |
| strings.dfy | `Strings` | `compareTo`, `split` on one character, `joining`, ASCII `toLowerCase` |
| grouping.dfy | `Grouping` | `groupingBy`, `counting()`, summing the values of a map, `toMap` |
| accounts.dfy | `Accounts` | the `Account` record and the domain `split("@")[1]` takes from an email |
| name_order.dfy | `NameOrder` | the first-name-then-last-name comparator and the stable sort |
| crazy_streams.dfy | `CrazyStreams` | the sixteen queries |

The `Account` class, `Sex` and `EntityNotFoundException` are defined outside
`CrazyStreams.java`. Their shape here follows the getters and the exception constructor
the queries use.

Where the class's documentation and its code differ, the model follows the code:

- `getNumOfLettersInFirstAndLastNames` is documented as counting letters. It counts every character of the names (`length()`).
- The two frequency queries are documented as keyed by letters. They count every character.
- `partitionMaleAccounts` is documented as always holding both keys. Its `groupingBy` only creates the keys that occur. Both versions are modelled, and the difference is under "## Findings".
- An email without a domain makes `split("@")[1]` throw. The queries that take an email's domain return that exception as a `Failure` and do not exclude such emails by a precondition.

## Model

All source paths are in `crazy-streams/src/main/java/com.bobocode/CrazyStreams.java`,
written in full in each row.

| member | source | states |
|---|---|---|
| CrazyStreams.FindRichestPerson | crazy-streams/src/main/java/com.bobocode/CrazyStreams.java:34-37 | empty exactly for no accounts; otherwise an input account whose balance no account exceeds, and the first such account (`maxBy` keeps the earlier one on a tie) |
| CrazyStreams.FindAccountsByBirthdayMonth | crazy-streams/src/main/java/com.bobocode/CrazyStreams.java:46-51 | every returned account was born in the month, and each account born in it occurs as often as in the input |
| CrazyStreams.FindAccountsByBirthdayMonthAppend | crazy-streams/src/main/java/com.bobocode/CrazyStreams.java:48-50 | the filter distributes over concatenation, so the result keeps encounter order |
| CrazyStreams.FindAccountsByBirthdayMonthAll | crazy-streams/src/main/java/com.bobocode/CrazyStreams.java:48-50 | accounts all born in the month come back unchanged |
| CrazyStreams.PartitionMaleAccounts | crazy-streams/src/main/java/com.bobocode/CrazyStreams.java:59-62 | `true` is a key iff some account is male, `false` iff some is female; each key maps to the accounts of that sex in encounter order |
| CrazyStreams.PartitionMaleAccountsPartitions | crazy-streams/src/main/java/com.bobocode/CrazyStreams.java:59-62 | every account sits in the list of its own sex, as often as in the input, and no list holds an account of the other sex |
| CrazyStreams.PartitionMaleAccountsWithoutMales | crazy-streams/src/main/java/com.bobocode/CrazyStreams.java:54-62 | an input without male accounts yields a map without the `true` key |
| CrazyStreams.PartitioningMaleAccounts | crazy-streams/src/main/java/com.bobocode/CrazyStreams.java:54-63 | the documented map: always exactly the keys `true` and `false`, each with the accounts of that sex in encounter order |
| CrazyStreams.PartitioningExtendsGrouping | crazy-streams/src/main/java/com.bobocode/CrazyStreams.java:59-63 | the documented map agrees with the computed one on its keys and has the empty list under a missing key |
| Accounts.EmailDomain | crazy-streams/src/main/java/com.bobocode/CrazyStreams.java:75 | a domain exists only for an email with an "@", and it holds no "@"; an email without "@" raises the index exception |
| Accounts.EmailDomainOfWellFormed | crazy-streams/src/main/java/com.bobocode/CrazyStreams.java:75 | `local@domain`, with no "@" in either part and a non-empty domain, yields exactly `domain` |
| Accounts.EmailDomainOfTrailingAt | crazy-streams/src/main/java/com.bobocode/CrazyStreams.java:75 | an email ending in its only "@" has no domain: `split` drops the trailing empty piece |
| Accounts.EmailDomainOfSeveralAts | crazy-streams/src/main/java/com.bobocode/CrazyStreams.java:75 | with a second "@", the domain is the text between the first and the second "@", even when empty (as for "a@@b"), provided it or some later piece is not empty |
| Accounts.EmailDomainSucceedsIff | crazy-streams/src/main/java/com.bobocode/CrazyStreams.java:75 | `split("@")[1]` succeeds exactly when some character other than "@" follows an "@", so "a@@" raises the index exception and "a@@b" does not |
| Strings.Split | crazy-streams/src/main/java/com.bobocode/CrazyStreams.java:75 | no piece holds the separator; a string without it splits into itself alone; with a separator, the result is the pieces between separators with exactly the trailing empty ones dropped |
| Strings.SplitJoin | crazy-streams/src/main/java/com.bobocode/CrazyStreams.java:75 | `split` inverts joining at the separator when no piece holds it and, for two or more pieces, the last is not empty |
| Strings.JoinPieces | crazy-streams/src/main/java/com.bobocode/CrazyStreams.java:75 | joining the separator-free pieces of a string back at the separator restores the string |
| CrazyStreams.Domains | crazy-streams/src/main/java/com.bobocode/CrazyStreams.java:74-75 | the domains of all emails in order when every email has one; otherwise the exception of the first email without one |
| CrazyStreams.GroupAccountsByEmailDomain | crazy-streams/src/main/java/com.bobocode/CrazyStreams.java:72-76 | fails iff some email has no domain, with the exception of the first such email; otherwise a key iff some email has that domain, and each key maps to the accounts with that domain in encounter order |
| CrazyStreams.GroupAccountsByEmailDomainPartitions | crazy-streams/src/main/java/com.bobocode/CrazyStreams.java:72-76 | with well-formed emails, every account sits under its own domain as often as in the input, under no other domain, and no list is empty |
| CrazyStreams.GetNumOfLettersInFirstAndLastNames | crazy-streams/src/main/java/com.bobocode/CrazyStreams.java:83-88 | the Java `int` sum is the exact number of characters in all first and last names wrapped to 32 bits, and equal to it when it fits |
| JavaInt.Add | crazy-streams/src/main/java/com.bobocode/CrazyStreams.java:87 | Java `int` addition: the result is in range, differs from the exact sum by a multiple of 2^32, and is the exact sum when that fits |
| JavaInt.WrapAdd | crazy-streams/src/main/java/com.bobocode/CrazyStreams.java:86-87 | wrapping a partial sum before adding more does not change the wrapped total |
| CrazyStreams.CalculateTotalBalance | crazy-streams/src/main/java/com.bobocode/CrazyStreams.java:95-100 | zero for no accounts; the balance itself for one account; never negative when no balance is |
| CrazyStreams.CalculateTotalBalanceAppend | crazy-streams/src/main/java/com.bobocode/CrazyStreams.java:97-99 | the total of two collections laid end to end is the sum of their totals |
| CrazyStreams.SortByFirstAndLastNames | crazy-streams/src/main/java/com.bobocode/CrazyStreams.java:107-112 | a permutation of the input, ordered by first then last name, keeping the encounter order of accounts with equal names |
| CrazyStreams.SortByFirstAndLastNamesIdempotent | crazy-streams/src/main/java/com.bobocode/CrazyStreams.java:109-111 | sorting the sorted result changes nothing |
| NameOrder.Sort | crazy-streams/src/main/java/com.bobocode/CrazyStreams.java:110 | the stable sort returns a permutation of its input that is ordered by the comparator |
| NameOrder.SortStable | crazy-streams/src/main/java/com.bobocode/CrazyStreams.java:110 | accounts whose names agree leave the sort in their input order |
| NameOrder.SortOfSorted | crazy-streams/src/main/java/com.bobocode/CrazyStreams.java:110 | a sequence already ordered by the comparator comes back unchanged |
| NameOrder.NameLe | crazy-streams/src/main/java/com.bobocode/CrazyStreams.java:110 | an account may come before another only if its first name compares at most the other's; between equal first names, exactly when its last name compares at most the other's |
| NameOrder.NameLeTotal | crazy-streams/src/main/java/com.bobocode/CrazyStreams.java:110 | any two accounts are comparable |
| NameOrder.NameLeTransitive | crazy-streams/src/main/java/com.bobocode/CrazyStreams.java:110 | the comparator's order is transitive |
| NameOrder.NameLeBothWays | crazy-streams/src/main/java/com.bobocode/CrazyStreams.java:110 | two accounts each come before the other exactly when both their names agree |
| Strings.LexLe | crazy-streams/src/main/java/com.bobocode/CrazyStreams.java:110 | `compareTo(b) <= 0` exactly when `a` is a prefix of `b` or has the smaller character at some position before which the two agree |
| Strings.LexLeTotal | crazy-streams/src/main/java/com.bobocode/CrazyStreams.java:110 | `compareTo` orders any two strings |
| Strings.LexLeAntisymmetric | crazy-streams/src/main/java/com.bobocode/CrazyStreams.java:110 | strings that each compare at most the other are equal |
| Strings.LexLeTransitive | crazy-streams/src/main/java/com.bobocode/CrazyStreams.java:110 | `compareTo`'s order is transitive |
| Strings.LexLessIff | crazy-streams/src/main/java/com.bobocode/CrazyStreams.java:110 | "compares below" is "compares at most" between different strings |
| CrazyStreams.ContainsAccountWithEmailDomain | crazy-streams/src/main/java/com.bobocode/CrazyStreams.java:120-124 | true iff an account with the domain comes before every email without a domain; false iff every email has a domain and none is this one; otherwise the exception of the first email without a domain |
| CrazyStreams.ContainsAccountWithEmailDomainIffKey | crazy-streams/src/main/java/com.bobocode/CrazyStreams.java:120-124 | with well-formed emails, the answer is whether the domain is a key of the grouping by domain |
| CrazyStreams.GetBalanceByEmail | crazy-streams/src/main/java/com.bobocode/CrazyStreams.java:133-140 | the balance of some account with the email; the not-found exception with message "Cannot find Account by email=" followed by the email exactly when no account has it |
| CrazyStreams.GetBalanceByUniqueEmail | crazy-streams/src/main/java/com.bobocode/CrazyStreams.java:135-139 | when only one account has the email, its balance is the answer |
| CrazyStreams.CollectAccountsById | crazy-streams/src/main/java/com.bobocode/CrazyStreams.java:147-151 | fails with the duplicate-key exception iff two accounts share an id; otherwise the keys are exactly the ids and each id maps to its account |
| Grouping.ToMap | crazy-streams/src/main/java/com.bobocode/CrazyStreams.java:150 | fails iff two elements share a key; otherwise the keys are exactly the elements' keys and each element's key maps to that element's value |
| CrazyStreams.CollectBalancesByEmailForAccountsCreatedOn | crazy-streams/src/main/java/com.bobocode/CrazyStreams.java:160-165 | fails iff two accounts created in the year share an email; otherwise the keys are exactly the emails of those accounts and each maps to its account's balance |
| Grouping.KeysDistinctFilter | crazy-streams/src/main/java/com.bobocode/CrazyStreams.java:162-164 | the filtered elements have distinct keys iff the elements passing the filter do |
| CrazyStreams.GroupFirstNamesByLastNames | crazy-streams/src/main/java/com.bobocode/CrazyStreams.java:173-178 | a key iff some account has that last name; its set holds exactly the first names that occur with it |
| CrazyStreams.GroupFirstNamesByLastNamesNonEmpty | crazy-streams/src/main/java/com.bobocode/CrazyStreams.java:175-177 | no last name maps to the empty set |
| CrazyStreams.GroupCommaSeparatedFirstNamesByBirthdayMonth | crazy-streams/src/main/java/com.bobocode/CrazyStreams.java:186-191 | a key iff someone is born in that month; its value is the first names of `findAccountsByBirthdayMonth` for that month, joined with ", " |
| CrazyStreams.BirthMonthGroup | crazy-streams/src/main/java/com.bobocode/CrazyStreams.java:188-189 | the group `groupingBy` forms for a birth month is exactly the accounts `findAccountsByBirthdayMonth` returns for it |
| CrazyStreams.GroupCommaSeparatedFirstNamesByBirthdayMonthAppend | crazy-streams/src/main/java/com.bobocode/CrazyStreams.java:188-190 | for a month present in both halves of a collection, the whole's names are the first half's, ", ", then the second half's |
| Strings.Join | crazy-streams/src/main/java/com.bobocode/CrazyStreams.java:190 | no strings join to the empty string, a single string joins to itself, and the joining starts with the first string |
| Strings.JoinAppend | crazy-streams/src/main/java/com.bobocode/CrazyStreams.java:190 | joining two non-empty lists laid end to end puts one separator between their joinings |
| CrazyStreams.GroupTotalBalanceByCreationMonth | crazy-streams/src/main/java/com.bobocode/CrazyStreams.java:199-204 | a key iff some account was created in that month; its value is the total balance of the accounts created in it |
| CrazyStreams.GroupTotalBalanceByCreationMonthSum | crazy-streams/src/main/java/com.bobocode/CrazyStreams.java:201-203 | the monthly totals add up to the total balance |
| Grouping.GroupBy | crazy-streams/src/main/java/com.bobocode/CrazyStreams.java:62 | a key iff some element has it |
| Grouping.GroupByWithKey | crazy-streams/src/main/java/com.bobocode/CrazyStreams.java:62 | each group is the elements with that key in encounter order |
| Grouping.GroupByPartitions | crazy-streams/src/main/java/com.bobocode/CrazyStreams.java:62 | every element lies in the group of its key as often as in the input, and in no other group |
| Grouping.Totals | crazy-streams/src/main/java/com.bobocode/CrazyStreams.java:203 | one total per group; a group of one element totals that element's weight; no total is negative when no weight is |
| Grouping.GroupedSum | crazy-streams/src/main/java/com.bobocode/CrazyStreams.java:202-203 | the per-group totals add up to the total over all elements |
| CrazyStreams.GetCharacterFrequencyInFirstNames | crazy-streams/src/main/java/com.bobocode/CrazyStreams.java:212-219 | a key iff the character occurs in some first name; its count is its number of occurrences in all first names |
| CrazyStreams.GetCharacterFrequencyInFirstNamesSum | crazy-streams/src/main/java/com.bobocode/CrazyStreams.java:214-218 | the counts add up to the number of characters in all first names |
| Grouping.Counting | crazy-streams/src/main/java/com.bobocode/CrazyStreams.java:218 | the keys are exactly the elements, each counted as often as it occurs |
| Grouping.CountingSum | crazy-streams/src/main/java/com.bobocode/CrazyStreams.java:218 | the counts add up to the length of the sequence |
| CrazyStreams.GetCharacterFrequencyIgnoreCaseInFirstAndLastNames | crazy-streams/src/main/java/com.bobocode/CrazyStreams.java:227-234 | a key iff the character occurs in some name with case ignored; its value is that number of occurrences; no key is an upper-case letter |
| CrazyStreams.GetCharacterFrequencyIgnoreCaseKeys | crazy-streams/src/main/java/com.bobocode/CrazyStreams.java:222-223 | the keys are the characters that are not upper-case letters and that occur in a name as themselves or, for a lower-case letter, in upper case |
| CrazyStreams.GetCharacterFrequencyIgnoreCaseInFirstAndLastNamesSum | crazy-streams/src/main/java/com.bobocode/CrazyStreams.java:229-233 | the counts add up to the number of characters in all first and last names |
| CrazyStreams.LowerFullName | crazy-streams/src/main/java/com.bobocode/CrazyStreams.java:230 | lower-casing the two names separately and concatenating equals lower-casing the full name |
| Strings.LowerAscii | crazy-streams/src/main/java/com.bobocode/CrazyStreams.java:230 | the same length, and each character is replaced by its ASCII lower-case form |
| CrazyStreams.LowerFullNameChars | crazy-streams/src/main/java/com.bobocode/CrazyStreams.java:230-231 | lower-casing each name and then laying the names end to end lower-cases the whole |
| Strings.LowerAsciiCount | crazy-streams/src/main/java/com.bobocode/CrazyStreams.java:230 | a character's count after lower-casing is its count before, with case ignored |
| Strings.ToLowerAsciiPreimage | crazy-streams/src/main/java/com.bobocode/CrazyStreams.java:230 | a character is the lower-case form of exactly itself (unless it is an upper-case letter) and, for a lower-case letter, its upper-case partner |
| Seqs.Filter | crazy-streams/src/main/java/com.bobocode/CrazyStreams.java:49 | never more elements than the input, every kept element passes the predicate, and a single element is kept exactly when it passes |
| Seqs.FilterContents | crazy-streams/src/main/java/com.bobocode/CrazyStreams.java:49 | an element occurs in the result as often as in the input when it passes, and not at all otherwise |
| Seqs.FilterAppend | crazy-streams/src/main/java/com.bobocode/CrazyStreams.java:136 | filtering commutes with concatenation, so the kept elements stay in encounter order |
| Seqs.MapSeq | crazy-streams/src/main/java/com.bobocode/CrazyStreams.java:98 | one result per input element, the i-th being the function applied to the i-th element |
| Seqs.MapSeqAppend | crazy-streams/src/main/java/com.bobocode/CrazyStreams.java:215 | mapping commutes with concatenation |
| Seqs.Flatten | crazy-streams/src/main/java/com.bobocode/CrazyStreams.java:216 | an element is in the flattening exactly when it is in some piece, and a single piece flattens to itself |
| Seqs.FlattenAppend | crazy-streams/src/main/java/com.bobocode/CrazyStreams.java:231 | flattening commutes with concatenation, so the pieces are laid out in their order |
| Seqs.SeqSum | crazy-streams/src/main/java/com.bobocode/CrazyStreams.java:99 | zero for no elements, the weight itself for one element, and never negative when no weight is |
| Seqs.SeqSumAppend | crazy-streams/src/main/java/com.bobocode/CrazyStreams.java:99 | the sum over two sequences laid end to end is the sum of their sums |

## Left out

- `FileReaders` in the `file-reader` exercise: it only reads a resource file, which is I/O.
- The `CrazyStreams.of` factory and the private constructor only store the collection. A query here takes the collection as its argument.
- Laziness, parallel streams and the order of a `HashMap`'s entries. Maps are Dafny `map`s, which have no order.
- `BigDecimal` is an exact decimal (`real`) without a scale. `BigDecimal.equals` also compares scale, and that is not modelled.
- `Month` and `LocalDate` are plain integers. Calendar validity is not modelled.
- `Long` ids are unbounded integers. `counting()` returns `Long`, and counts are `nat`: no collection here reaches 2^63 elements.
- Characters are Dafny `char`s (Unicode scalar values), not UTF-16 code units. So `length()` and `chars()` differ from Java for characters outside the Basic Multilingual Plane.
- Strings.LexLe compares Unicode scalar values, while `compareTo` compares UTF-16 code units. The two orders differ when one name holds a character outside the Basic Multilingual Plane and the other holds one in U+E000–U+FFFF at the same position. So NameOrder.NameLe, NameOrder.Sort and CrazyStreams.SortByFirstAndLastNames can order such names differently from Java.
- Strings.LowerAscii: lower-cases only `A`–`Z`. Java's locale-sensitive `toLowerCase` also maps other letters (and, in some locales, `I` differently). The ignore-case query is stated for ASCII letters only.
- CrazyStreams.GetBalanceByEmail: `findAny` may return any matching account. The model returns the first match, and its contract promises only "some account with the email".
- Grouping.ToMap: the `IllegalStateException` message naming the duplicate key is not modelled, only the failure.
- `split` is modelled for a separator that is a single character and not a regular-expression metacharacter, which covers the "@" the queries pass.
- A `null` collection, account or field is not modelled. Every value exists.

## Findings

| source | as written | input that shows it | evidently intended | confidence | as-written member | corrected member |
|---|---|---|---|---|---|---|
| crazy-streams/src/main/java/com.bobocode/CrazyStreams.java:54-63 | `groupingBy(sex == MALE)` creates a key only for a sex that occurs | accounts that are all female: the map has no `true` key | the documented map with both keys, `true` for the male list and `false` for the female list, as the commented-out `partitioningBy` gives | medium, not executed | CrazyStreams.PartitionMaleAccountsWithoutMales | CrazyStreams.PartitioningMaleAccounts |
