# lab4sem in Dafny

A model of five small C# programs from the `lab4sem` coursework repository, with proofs
about them:

- **TTL cache** (`lab4sem/4`, the main component). `Cache<T>` is a dictionary from string
  keys to `CacheItem<T>` (a value and its creation instant), with a fixed time to live and
  capacity.
  - `Save` refuses a key that is present, sweeps out expired entries, evicts one oldest
    entry when the cache is still full, and then inserts.
  - `Get` returns a live value, or removes an expired entry and fails.
  - The class becomes `TtlCache.Cache` with a `map` field. The relation `SaveStep` and the
    function `GetStep` specify its methods.
- **Validator library** (`lab4sem/3`, `validatorDLL.cs`). A fluent builder appends rules to
  a list that the built validator shares.
  - `Validate` runs every rule, collects every exception in rule order and throws one
    aggregate.
  - Rules are functions from the data to `Pass` or `Fail(exception)`.
- **User records and their rules** (`lab4sem/3`, `Program.cs`). `ParseUserData` fills a
  record from `key:value` items. Five rules are written out:
  - sample;
  - user name;
  - full name;
  - email;
  - password.

  Their regular expressions are written out as predicates over the characters.
- **Integer matrices** (`lab4sem/6`). The product of two `int[,]` arrays, with C#'s
  wrap-around 32-bit arithmetic, and the generation of a matrix from a rule. Also the line
  format the program writes and reads back, with the files replaced by their sequences of
  lines.
- **Tokenizer** (`lab4sem/1`). `FileTokenizer.Tokenize` splits each line of a file at a set
  of delimiters and drops the empty pieces. `Dispose` guards closing the reader with a
  flag.

The string operations of the .NET base library that these programs call live in module
`Text`:
- `char.IsWhiteSpace`;
- `string.Trim`;
- `string.Split` on characters;
- joining with a separator.

The files are `text.dfy`, `ttl_cache.dfy`, `validator.dfy`, `user_rules.dfy`,
`matrix.dfy` and `tokenizer.dfy`.

Behaviour of the code worth noting:
- **The cache demo.** By the time `key4` is saved, `key1`, `key2` and `key3` have been
  saved again and the cache is full, so saving `key4` evicts `key1`, the oldest.
  - `TtlCache.DemoScenario` proves the outcome: after the eviction, reading `key1` fails
    and `key2` to `key4` are read back.
- **Capacity 0.** A cache created with capacity 0 stays empty. Saving a new key into it
  sweeps, finds nothing left, and `OrderBy(...).First()` throws, so nothing is inserted
  (`TtlCache.SaveZeroCapacity`, `TtlCache.SaveFailsOnlyOnEmptyZeroCapacity`). The count of
  every cache stays within its capacity (`TtlCache.Cache.Valid`, kept by `Save` and `Get`).
- **Eviction ties.** Among oldest entries with equal creation times, the code leaves the
  choice to the dictionary's enumeration order, so the model allows any oldest entry.
- **The password rule.** Its message asks for an upper-case letter and an underscore. The
  code demands neither (`UserRules.PasswordNeedsNoUpperCase`).

## Model

| member | source | states |
|---|---|---|
| TtlCache.Live | lab4sem/4/ConsoleApp4/ConsoleApp4/Program.cs:79-88 | the sweep keeps only keys that were present, each with its old entry, and only entries that have not expired |
| TtlCache.SaveStep | lab4sem/4/ConsoleApp4/ConsoleApp4/Program.cs:33-52 | a successful save adds a key that was absent, holding the value stamped `now`; a failing save leaves the dictionary unchanged or without the key |
| TtlCache.GetStep | lab4sem/4/ConsoleApp4/ConsoleApp4/Program.cs:55-76 | Get leaves the dictionary as it was or removes only the requested key; a success returns the stored value of a present key |
| TtlCache.Cache.constructor | lab4sem/4/ConsoleApp4/ConsoleApp4/Program.cs:25-30 | the cache starts empty, with the given time to live and capacity, and so within its capacity (`Valid`) |
| TtlCache.Cache.Save | lab4sem/4/ConsoleApp4/ConsoleApp4/Program.cs:33-52 | the outcome and new dictionary are related to the old one by `SaveStep`. A present key fails with no change. Otherwise the sweep runs; below capacity the entry is added. Full and empty (capacity 0) fails after the sweep. Full and non-empty evicts one oldest entry and adds the new one. The count stays within the capacity (`Valid`) |
| TtlCache.Cache.Get | lab4sem/4/ConsoleApp4/ConsoleApp4/Program.cs:55-76 | an absent key fails as not found with no change. An expired entry is removed and reported expired. A live entry's value is returned with no change. The count stays within the capacity (`Valid`) |
| TtlCache.Cache.RemoveExpiredItems | lab4sem/4/ConsoleApp4/ConsoleApp4/Program.cs:79-88 | after the loop the dictionary is exactly the old one restricted to its unexpired entries |
| TtlCache.OldestExists | lab4sem/4/ConsoleApp4/ConsoleApp4/Program.cs:45 | a non-empty dictionary always has an entry of minimal creation time for `OrderBy(...).First()` to pick |
| TtlCache.LiveExactly | lab4sem/4/ConsoleApp4/ConsoleApp4/Program.cs:82 | the sweep keeps a key iff its age is at most the time to live (an entry aged exactly the time to live survives), and keeps it unchanged |
| TtlCache.LiveWhole | lab4sem/4/ConsoleApp4/ConsoleApp4/Program.cs:82-87 | with nothing expired the sweep keeps everything; with everything expired it leaves nothing |
| TtlCache.LiveNoLarger | lab4sem/4/ConsoleApp4/ConsoleApp4/Program.cs:79-88 | the sweep never increases the count |
| TtlCache.SaveRejectsDuplicate | lab4sem/4/ConsoleApp4/ConsoleApp4/Program.cs:35-36 | saving a present key, even an expired one, fails with `KeyAlreadyExists` before any sweep and leaves the dictionary unchanged |
| TtlCache.SaveFailsOnlyOnEmptyZeroCapacity | lab4sem/4/ConsoleApp4/ConsoleApp4/Program.cs:40-45 | saving a new key fails iff the capacity is 0 and the sweep leaves nothing; the failure is `First()` on an empty sequence, and the swept (empty) dictionary remains |
| TtlCache.SaveStoresAndSweeps | lab4sem/4/ConsoleApp4/ConsoleApp4/Program.cs:40-50 | after a successful save the key maps to the value stamped `now`. Every other entry is an unexpired old entry, unchanged. No expired entry remains |
| TtlCache.SaveEvictsOldest | lab4sem/4/ConsoleApp4/ConsoleApp4/Program.cs:42-50 | below capacity after the sweep, the keys are the swept keys plus the new one. At or above it, exactly one swept key is removed, and its creation time is at most every remaining entry's. The count follows |
| TtlCache.EvictOne | lab4sem/4/ConsoleApp4/ConsoleApp4/Program.cs:45-50 | replacing an oldest entry by a new key keeps the count and removes only that entry |
| TtlCache.SaveKeepsBound | lab4sem/4/ConsoleApp4/ConsoleApp4/Program.cs:42-50 | for any capacity, a save from a dictionary within the capacity leaves one within it; with capacity at least 1 a save of a new key succeeds |
| TtlCache.SaveZeroCapacity | lab4sem/4/ConsoleApp4/ConsoleApp4/Program.cs:40-45 | a cache of capacity 0 stays empty: saving any key fails with `SequenceContainsNoElements` from `First()` and leaves the dictionary empty |
| TtlCache.SaveThenGet | lab4sem/4/ConsoleApp4/ConsoleApp4/Program.cs:50-69 | a value saved at `t0` is returned by a Get at any `t1` with `t1 - t0 <= ttl` with no change, and reported expired and removed after that |
| TtlCache.GetOnlyLive | lab4sem/4/ConsoleApp4/ConsoleApp4/Program.cs:58-75 | Get succeeds iff the key is present and alive, then returns its value with no change. On failure the dictionary is the old one minus that key |
| TtlCache.GetExpiredTwice | lab4sem/4/ConsoleApp4/ConsoleApp4/Program.cs:64-75 | a Get of an expired key reports expiry and removes it; a second Get reports it not found |
| TtlCache.SaveWithRoom | lab4sem/4/ConsoleApp4/ConsoleApp4/Program.cs:33-51 | a new key, nothing expired and room left: the save only adds the entry |
| TtlCache.SaveWhenFull | lab4sem/4/ConsoleApp4/ConsoleApp4/Program.cs:42-50 | a new key, nothing expired, the cache full, and `v` strictly oldest: the save evicts `v` and adds the entry |
| TtlCache.DemoFill | lab4sem/4/ConsoleApp4/ConsoleApp4/Program.cs:95-100 | the three first saves succeed and fill the cache with key1 to key3 |
| TtlCache.DemoFillAndExpire | lab4sem/4/ConsoleApp4/ConsoleApp4/Program.cs:102-117 | the three reads return value1 to value3. After three seconds the read of key1 fails as expired and removes it |
| TtlCache.DemoRefill | lab4sem/4/ConsoleApp4/ConsoleApp4/Program.cs:127-129 | saving key1 to key3 again succeeds; the first save sweeps the expired key2 and key3 |
| TtlCache.DemoRefillRest | lab4sem/4/ConsoleApp4/ConsoleApp4/Program.cs:128-129 | after key1, saving key2 and key3 succeeds and gives the full three-entry cache |
| TtlCache.DemoEvict | lab4sem/4/ConsoleApp4/ConsoleApp4/Program.cs:130 | saving key4 into the full cache succeeds and evicts key1 |
| TtlCache.DemoReadAfterEvict | lab4sem/4/ConsoleApp4/ConsoleApp4/Program.cs:131-143 | key4 reads value4, key1 is not found, key2 and key3 read their values |
| TtlCache.DemoScenario | lab4sem/4/ConsoleApp4/ConsoleApp4/Program.cs:93-149 | the outcome of every Save and Get of the demo program |
| Validator.RuleList.constructor | lab4sem/3/ConsoleApp3/ConsoleApp3/validatorDLL.cs:18 | the rule list starts empty |
| Validator.DataValidatorBuilder.constructor | lab4sem/3/ConsoleApp3/ConsoleApp3/validatorDLL.cs:18 | a new builder owns a fresh, empty rule list |
| Validator.DataValidatorBuilder.AddRule | lab4sem/3/ConsoleApp3/ConsoleApp3/validatorDLL.cs:21-25 | the rule is appended after the earlier ones, which are unchanged, and the same builder is returned |
| Validator.DataValidatorBuilder.Build | lab4sem/3/ConsoleApp3/ConsoleApp3/validatorDLL.cs:28-33 | fails with `NoValidationRulesException` iff there are no rules. Otherwise the new validator holds the builder's own list object, not a copy |
| Validator.UniversalValidator.constructor | lab4sem/3/ConsoleApp3/ConsoleApp3/validatorDLL.cs:43-46 | the validator keeps the list it is given |
| Validator.UniversalValidator.Validate | lab4sem/3/ConsoleApp3/ConsoleApp3/validatorDLL.cs:50-70 | the outcome is the aggregate of the errors of all failing rules in rule order, normal return when there are none; nothing is modified |
| Validator.FailuresBound | lab4sem/3/ConsoleApp3/ConsoleApp3/validatorDLL.cs:54-66 | at most one collected error per rule |
| Validator.FailuresAppend | lab4sem/3/ConsoleApp3/ConsoleApp3/validatorDLL.cs:54-66 | the errors of two rule lists in sequence are the first's errors followed by the second's |
| Validator.FailuresEmptyIff | lab4sem/3/ConsoleApp3/ConsoleApp3/validatorDLL.cs:54-68 | no error is collected iff every rule passes |
| Validator.FailureAt | lab4sem/3/ConsoleApp3/ConsoleApp3/validatorDLL.cs:54-66 | a failing rule's error is collected right after those of the rules before it: validation does not stop at the first failure |
| Validator.ValidateOutcome | lab4sem/3/ConsoleApp3/ConsoleApp3/validatorDLL.cs:52-68 | Validate returns normally iff every rule passes; otherwise it throws one `AggregateException` holding between 1 and the number of rules errors |
| Validator.RuleAddedAfterBuild | lab4sem/3/ConsoleApp3/ConsoleApp3/validatorDLL.cs:32-46 | a rule added to the builder after `Build` is applied by the already-built validator |
| UserRules.Assignment | lab4sem/3/ConsoleApp3/ConsoleApp3/Program.cs:24-40 | an item is used only if it holds exactly one `:`; the stored value does not start with white space |
| UserRules.Assignments | lab4sem/3/ConsoleApp3/ConsoleApp3/Program.cs:22-24 | one assignment per item |
| UserRules.RecordAppend | lab4sem/3/ConsoleApp3/ConsoleApp3/Program.cs:27-40 | one more item changes only the field it names, to the value it carries; an ignored item changes nothing |
| UserRules.ParseUserData | lab4sem/3/ConsoleApp3/ConsoleApp3/Program.cs:18-46 | the record is the one the items' assignments build from an all-null record: each field holds the value of the last item naming it |
| UserRules.AssignmentIff | lab4sem/3/ConsoleApp3/ConsoleApp3/Program.cs:24-40 | an item is used iff it has exactly one `:` and its trimmed key is one of the four names. The value stored is then the trimmed text after the colon |
| UserRules.LastValueNone | lab4sem/3/ConsoleApp3/ConsoleApp3/Program.cs:20-43 | a field stays null iff no item sets it |
| UserRules.LastValueSome | lab4sem/3/ConsoleApp3/ConsoleApp3/Program.cs:22-40 | a set field holds the value of an item that sets it and that no later item overrides |
| UserRules.LastIndexOf | lab4sem/3/ConsoleApp3/ConsoleApp3/Program.cs:129 | the index of the last occurrence of a character, or -1 when there is none |
| UserRules.EmailFormatIsPattern | lab4sem/3/ConsoleApp3/ConsoleApp3/Program.cs:129 | the direct check with the last `@` and the last `.` agrees with "the regular expression matches in some way" in both directions. A matching address has exactly one `@` |
| UserRules.SampleRule | lab4sem/3/ConsoleApp3/ConsoleApp3/Program.cs:54-60 | the sample rule passes only a present, non-empty string |
| UserRules.UsernameRule | lab4sem/3/ConsoleApp3/ConsoleApp3/Program.cs:65-79 | the user-name rule fails only with a validation error and passes only a present name of at least 7 characters |
| UserRules.CheckNamePart | lab4sem/3/ConsoleApp3/ConsoleApp3/Program.cs:93-110 | a part passes iff it is an upper-case letter followed only by lower-case letters; it fails with an index error iff it is empty |
| UserRules.CheckNameParts | lab4sem/3/ConsoleApp3/ConsoleApp3/Program.cs:93-110 | the parts pass iff every part passes; a failure is an index error or a validation error |
| UserRules.FullnameRule | lab4sem/3/ConsoleApp3/ConsoleApp3/Program.cs:84-117 | the full-name rule fails only with an index or validation error and passes only a present name of at most 100 characters |
| UserRules.EmailRule | lab4sem/3/ConsoleApp3/ConsoleApp3/Program.cs:123-133 | the email rule fails only with a validation error and passes only a present address holding `@` |
| UserRules.PasswordRule | lab4sem/3/ConsoleApp3/ConsoleApp3/Program.cs:138-155 | the password rule fails only with a validation error and passes only a present password of at least 15 characters |
| UserRules.SampleRuleIff | lab4sem/3/ConsoleApp3/ConsoleApp3/Program.cs:54-60 | the sample rule fails iff the string is null or all white space |
| UserRules.WordPatternNotBlank | lab4sem/3/ConsoleApp3/ConsoleApp3/Program.cs:71 | a string matching `^[a-zA-Z0-9_]+$` is not blank |
| UserRules.UsernameAcceptedIff | lab4sem/3/ConsoleApp3/ConsoleApp3/Program.cs:65-79 | a user name is accepted iff it is present, matches `^[a-zA-Z0-9_]+$` and has at least 7 characters |
| UserRules.CheckNamePartsIff | lab4sem/3/ConsoleApp3/ConsoleApp3/Program.cs:93-110 | the parts pass iff each is an upper-case letter followed only by lower-case letters |
| UserRules.FullnameAcceptedIff | lab4sem/3/ConsoleApp3/ConsoleApp3/Program.cs:84-117 | a full name is accepted iff it is present and not blank, every `' '`-separated part is well formed, and its length is at most 100 |
| UserRules.FullnameLeadingSpace | lab4sem/3/ConsoleApp3/ConsoleApp3/Program.cs:91-96 | a non-blank name starting with a space fails with an index error from the empty first part |
| UserRules.WellFormedPartFree | lab4sem/3/ConsoleApp3/ConsoleApp3/Program.cs:96-108 | a well-formed part holds no space and does not start with white space |
| UserRules.FullnameDoubleSpace | lab4sem/3/ConsoleApp3/ConsoleApp3/Program.cs:91-96 | after a well-formed first part, two spaces in a row give an empty part, and the rule fails with an index error |
| UserRules.FullnameTwoParts | lab4sem/3/ConsoleApp3/ConsoleApp3/Program.cs:86-117 | two well-formed parts joined by one space, at most 100 characters, are accepted |
| UserRules.EmailAcceptedIff | lab4sem/3/ConsoleApp3/ConsoleApp3/Program.cs:123-133 | an email is accepted iff it is present and the pattern matches the whole text, or all of it but a final line feed |
| UserRules.PasswordAcceptedIff | lab4sem/3/ConsoleApp3/ConsoleApp3/Program.cs:138-155 | a password is accepted iff it is present, has at least 15 characters and matches `^[a-zA-Z0-9_]+$` |
| UserRules.PasswordNeedsNoUpperCase | lab4sem/3/ConsoleApp3/ConsoleApp3/Program.cs:150-153 | an all-lower-case password with no underscore is accepted, whatever the message says |
| UserRules.AssignmentOfItem | lab4sem/3/ConsoleApp3/ConsoleApp3/Program.cs:24-40 | an item `key:value` with colon-free parts sets the field its trimmed key names to the trimmed value |
| UserRules.TrimmedItem | lab4sem/3/ConsoleApp3/ConsoleApp3/Program.cs:24-40 | with a key naming a field and a value without white space at its ends, the item sets the field to exactly that value |
| UserRules.SampleItemsParse | lab4sem/3/ConsoleApp3/ConsoleApp3/Program.cs:182-184 | the demo items parse to a record with all four fields set |
| UserRules.SampleUserValid | lab4sem/3/ConsoleApp3/ConsoleApp3/Program.cs:175-186 | the demo record passes all four user rules |
| UserRules.AllUserRulesPass | lab4sem/3/ConsoleApp3/ConsoleApp3/Program.cs:175-186 | a record each user rule accepts gets no failure from the four-rule validator |
| UserRules.DemoSamples | lab4sem/3/ConsoleApp3/ConsoleApp3/Program.cs:165-173 | the sample validator accepts each of the four sample strings |
| UserRules.BuildUserValidator | lab4sem/3/ConsoleApp3/ConsoleApp3/Program.cs:175-180 | the builder chain gives a validator with the four user rules in order |
| UserRules.DemoUser | lab4sem/3/ConsoleApp3/ConsoleApp3/Program.cs:175-187 | the parsed demo record passes the four-rule validator |
| UserRules.DemoMain | lab4sem/3/ConsoleApp3/ConsoleApp3/Program.cs:160-189 | the whole demo program validates without an exception |
| Matrix.Wrap32 | lab4sem/6/ConsoleApp6/ConsoleApp6/Program.cs:139 | the wrapped value is the `int` congruent to the exact value modulo 2^32 |
| Matrix.Wrap32InRange | lab4sem/6/ConsoleApp6/ConsoleApp6/Program.cs:139 | a value that fits in an `int` is not changed by wrapping |
| Matrix.Wrap32Add | lab4sem/6/ConsoleApp6/ConsoleApp6/Program.cs:139 | wrapping after every addition gives the same result as wrapping the exact sum once |
| Matrix.Cells | lab4sem/6/ConsoleApp6/ConsoleApp6/Program.cs:109-147 | the cells of a two-dimensional array as a rectangular matrix of its shape |
| Matrix.Product | lab4sem/6/ConsoleApp6/ConsoleApp6/Program.cs:125-143 | the product has rows1 rows and cols2 columns |
| Matrix.CellSum | lab4sem/6/ConsoleApp6/ConsoleApp6/Program.cs:134-140 | the accumulated `sum` is the row-by-column sum of products, wrapped to an `int` |
| Matrix.CellSumStep | lab4sem/6/ConsoleApp6/ConsoleApp6/Program.cs:139 | one more wrapped product added to the wrapped partial sum gives the wrapped next partial sum |
| Matrix.ProductRow | lab4sem/6/ConsoleApp6/ConsoleApp6/Program.cs:128-144 | the parallel body for row `i` fills that row with its wrapped sums and changes no other row |
| Matrix.MultiplyMatricesParallel | lab4sem/6/ConsoleApp6/ConsoleApp6/Program.cs:109-147 | fails with the dimension message iff cols1 ≠ rows2. Otherwise a fresh rows1 × cols2 array whose cells are the wrapped row-by-column sums |
| Matrix.ProductExact | lab4sem/6/ConsoleApp6/ConsoleApp6/Program.cs:139 | where a sum stays within the `int` range, the cell is the exact sum |
| Matrix.ProductIdentity | lab4sem/6/ConsoleApp6/ConsoleApp6/Program.cs:109-147 | multiplying by the identity (the helper `Identity`, an `n` by `n` matrix) gives the matrix back, as the wrapped sums stay exact |
| Matrix.GenerateMatrixByRule | lab4sem/6/ConsoleApp6/ConsoleApp6/Program.cs:150-166 | a fresh rows × cols array with cell (i, j) equal to rule(i, j); a negative size fails |
| Matrix.Digits | lab4sem/6/ConsoleApp6/ConsoleApp6/Program.cs:101 | the decimal digits of a number are at least one digit with no leading zero |
| Matrix.DigitsValueOfDigits | lab4sem/6/ConsoleApp6/ConsoleApp6/Program.cs:72 | reading back the digits of a number gives the number |
| Matrix.ParseDecimalString | lab4sem/6/ConsoleApp6/ConsoleApp6/Program.cs:72 | `int.Parse` of what `ToString` writes gives back the number |
| Matrix.DecimalString | lab4sem/6/ConsoleApp6/ConsoleApp6/Program.cs:101 | `ToString` of an `int` is at least one character, starts with `-` iff the number is negative, and is otherwise made of digits |
| Matrix.ParseInt32 | lab4sem/6/ConsoleApp6/ConsoleApp6/Program.cs:72 | `int.Parse` fails only with a format error or an overflow error |
| Matrix.ParseNumber | lab4sem/6/ConsoleApp6/ConsoleApp6/Program.cs:72 | the text after the leading white space: empty text is a format error, and the only errors are format and overflow |
| Matrix.DecimalStringFree | lab4sem/6/ConsoleApp6/ConsoleApp6/Program.cs:101 | a written number holds no space |
| Matrix.RowLine | lab4sem/6/ConsoleApp6/ConsoleApp6/Program.cs:95-102 | the built line is the row's decimal forms joined by single spaces, with no trailing space |
| Matrix.WriteMatrix | lab4sem/6/ConsoleApp6/ConsoleApp6/Program.cs:80-106 | one line per row, in order, each the row's formatted line |
| Matrix.FormatMatrix | lab4sem/6/ConsoleApp6/ConsoleApp6/Program.cs:80-104 | the written file has one line per row |
| Matrix.ParseFields | lab4sem/6/ConsoleApp6/ConsoleApp6/Program.cs:69-73 | a successfully parsed row has exactly the column count of values |
| Matrix.ParseRows | lab4sem/6/ConsoleApp6/ConsoleApp6/Program.cs:63-74 | successfully parsed lines give a matrix of one row per line, each of the column count |
| Matrix.ParseFieldsFailed | lab4sem/6/ConsoleApp6/ConsoleApp6/Program.cs:69-73 | after the first failing field, later fields do not change the error |
| Matrix.ParseRowsFailed | lab4sem/6/ConsoleApp6/ConsoleApp6/Program.cs:63-74 | after the first failing line, later lines do not change the error |
| Matrix.ParseMatrix | lab4sem/6/ConsoleApp6/ConsoleApp6/Program.cs:54-74 | a successful read has one row per line, each with as many cells as the first line has `' '`-separated fields |
| Matrix.ReadRow | lab4sem/6/ConsoleApp6/ConsoleApp6/Program.cs:66-73 | parsing one line stops at the first missing or unparsable field with its error. Otherwise row `i` holds the parsed values; other rows are unchanged |
| Matrix.ReadRows | lab4sem/6/ConsoleApp6/ConsoleApp6/Program.cs:63-74 | the rows are filled line by line. The first failing line's error is reported; otherwise every cell holds its parsed value |
| Matrix.ReadMatrix | lab4sem/6/ConsoleApp6/ConsoleApp6/Program.cs:48-77 | no lines is an index error. Otherwise the matrix has one row per line and as many columns as the first line has `' '`-separated fields; it fails with the first error, or holds the parsed values |
| Matrix.ParseFieldsIgnoresExtra | lab4sem/6/ConsoleApp6/ConsoleApp6/Program.cs:57-69 | fields after the first line's column count are ignored |
| Matrix.ParseFieldsTooFew | lab4sem/6/ConsoleApp6/ConsoleApp6/Program.cs:69-72 | a line with fewer fields than the column count fails; with an index error when its own fields parse |
| Matrix.ParseFormattedRow | lab4sem/6/ConsoleApp6/ConsoleApp6/Program.cs:66-72 | a written row of at least one cell splits into its fields and parses back to the row |
| Matrix.ParseRowsOfFormat | lab4sem/6/ConsoleApp6/ConsoleApp6/Program.cs:63-104 | the written lines of a matrix with at least one column parse back to its rows |
| Matrix.WriteThenRead | lab4sem/6/ConsoleApp6/ConsoleApp6/Program.cs:54-104 | writing a matrix with at least one row and one column and reading it back gives the matrix |
| Matrix.WriteThenReadDegenerate | lab4sem/6/ConsoleApp6/ConsoleApp6/Program.cs:57-72 | with no rows the read fails on `lines[0]`; with no columns the empty lines read as one empty field, a format error |
| Text.IsNullOrWhiteSpace | lab4sem/3/ConsoleApp3/ConsoleApp3/Program.cs:56 | a present string whose first character is not white space is neither null nor white space |
| Text.Trim | lab4sem/3/ConsoleApp3/ConsoleApp3/Program.cs:27-30 | the trimmed string is no longer than the string and neither starts nor ends with white space |
| Text.SplitAny | lab4sem/1/ConsoleApp1/ConsoleApp1/Program.cs:28 | a split on a set of characters gives at least one piece |
| Text.Split | lab4sem/3/ConsoleApp3/ConsoleApp3/Program.cs:24 | a split on one character gives one piece more than the occurrences of that character |
| Text.Join | lab4sem/6/ConsoleApp6/ConsoleApp6/Program.cs:101 | every piece is no longer than the joined string |
| Text.TrimStartDropsLeadingWhite | lab4sem/3/ConsoleApp3/ConsoleApp3/Program.cs:27-30 | the leading trim drops exactly the white space before the first other character |
| Text.TrimEndDropsTrailingWhite | lab4sem/3/ConsoleApp3/ConsoleApp3/Program.cs:27-30 | the trailing trim drops exactly the white space after the last other character |
| Text.TrimIsInnerSlice | lab4sem/3/ConsoleApp3/ConsoleApp3/Program.cs:27-30 | `Trim` keeps the slice between the leading and trailing white space, and the slice neither starts nor ends with white space |
| Text.TrimOfTrimmed | lab4sem/3/ConsoleApp3/ConsoleApp3/Program.cs:27-30 | a string without white space at its ends is its own trim |
| Text.SplitAnyCount | lab4sem/3/ConsoleApp3/ConsoleApp3/Program.cs:24-25 | `Split` gives one piece more than there are separator characters |
| Text.SplitAnyFree | lab4sem/1/ConsoleApp1/ConsoleApp1/Program.cs:28 | no piece of a split holds a separator |
| Text.JoinSplit | lab4sem/6/ConsoleApp6/ConsoleApp6/Program.cs:66 | joining the pieces of a split with the separator gives the string back |
| Text.SplitJoin | lab4sem/6/ConsoleApp6/ConsoleApp6/Program.cs:66 | splitting pieces joined by a separator they do not contain gives the pieces back |
| Text.JoinSnoc | lab4sem/6/ConsoleApp6/ConsoleApp6/Program.cs:101 | one more piece adds the separator and the piece at the end |
| Tokenizer.Separators | lab4sem/1/ConsoleApp1/ConsoleApp1/Program.cs:28 | the split characters are never empty and include every delimiter (white space when there are none) |
| Tokenizer.SplitTokens | lab4sem/1/ConsoleApp1/ConsoleApp1/Program.cs:28 | a line has no more tokens than separators plus one, and no token is empty |
| Tokenizer.TokensOf | lab4sem/1/ConsoleApp1/ConsoleApp1/Program.cs:25-33 | no token of the file is empty |
| Tokenizer.NonEmpty | lab4sem/1/ConsoleApp1/ConsoleApp1/Program.cs:28 | removing empty entries never lengthens the list |
| Tokenizer.FileTokenizer.constructor | lab4sem/1/ConsoleApp1/ConsoleApp1/Program.cs:12-17 | a new tokenizer keeps the file and delimiters, has its reader open, and is not disposed |
| Tokenizer.FileTokenizer.Tokenize | lab4sem/1/ConsoleApp1/ConsoleApp1/Program.cs:19-38 | the tokens are each line's split tokens, line after line |
| Tokenizer.FileTokenizer.DisposeCore | lab4sem/1/ConsoleApp1/ConsoleApp1/Program.cs:54-64 | afterwards the tokenizer is disposed. The reader is closed iff this is the first call and it comes from `Dispose()`; later calls change nothing |
| Tokenizer.FileTokenizer.Dispose | lab4sem/1/ConsoleApp1/ConsoleApp1/Program.cs:73-78 | afterwards the tokenizer is disposed and its finalizer suppressed. The reader stays open only if an earlier finalizer call left it so |
| Tokenizer.FileTokenizer.Finalize | lab4sem/1/ConsoleApp1/ConsoleApp1/Program.cs:67-70 | the finalizer marks the tokenizer disposed without touching the reader |
| Tokenizer.UsingTokenizer | lab4sem/1/ConsoleApp1/ConsoleApp1/Program.cs:12-78 | tokenizing and then disposing twice gives the tokens, a closed reader and the disposed flag; the second `Dispose` changes nothing |
| Tokenizer.NonEmptyAppend | lab4sem/1/ConsoleApp1/ConsoleApp1/Program.cs:28 | dropping empty pieces distributes over concatenation |
| Tokenizer.NonEmptyKeeps | lab4sem/1/ConsoleApp1/ConsoleApp1/Program.cs:28 | each kept piece is non-empty and one of the pieces |
| Tokenizer.TokensNonEmptyAndFree | lab4sem/1/ConsoleApp1/ConsoleApp1/Program.cs:28 | no token is empty and no token holds a delimiter |
| Tokenizer.ConcatTokens | lab4sem/1/ConsoleApp1/ConsoleApp1/Program.cs:28-33 | a line's tokens, concatenated, are the line with its delimiters removed |
| Tokenizer.TokensAreRuns | lab4sem/1/ConsoleApp1/ConsoleApp1/Program.cs:28-33 | a line's tokens are its maximal runs of non-delimiter characters, left to right |
| Tokenizer.SeparatorsOnlyNoTokens | lab4sem/1/ConsoleApp1/ConsoleApp1/Program.cs:28 | an empty line, or one made only of delimiters, has no tokens |
| Tokenizer.TokensOfAppend | lab4sem/1/ConsoleApp1/ConsoleApp1/Program.cs:25-33 | a file's tokens are its parts' tokens concatenated in order, so no token spans two lines |

## Left out

- **Cache concurrency.** `ConcurrentDictionary`, the `lock`, and the race between
  `ContainsKey` and the locked section are left out; operations are single-threaded.
- **Cache clock.** `DateTime.UtcNow` becomes an integer `now` per operation, and the time
  to live an integer number of ticks. The sweep's per-entry clock reads are one instant.
- **Cache demo output.** `Thread.Sleep` and console output are left out; the demo's
  instants are written out in milliseconds. Exception messages are represented by the
  error kinds.
- **Eviction ties.** Among entries with equal creation times the dictionary's enumeration
  order picks the victim. The model picks any oldest entry.
- **Null keys.** Null keys are not modelled: a string is never null here.
- **Rules as values.** `IValidationRule<T>` objects are functions from the data to a check.
  Rules with state of their own are not modelled.
- **Unicode character classes.** `char.IsWhiteSpace`, `char.IsUpper` and `char.IsLower` are
  approximated:
  - white space: the ASCII and Latin-1 white-space characters;
  - upper and lower case: the ASCII and basic Cyrillic letters.
- **Regular-expression engine.** Regular expressions are hand-written predicates, including
  the .NET `$` that also matches before a final line feed.
- **Demo exit codes.** The exit codes and printing of the `lab4sem/3` `Main` are left out.
- **Matrix I/O and memory.**
  - `File.ReadAllLinesAsync` and `StreamWriter` are left out: the file is its sequence of
    lines.
  - The hard-coded paths, `Main` and `GC.Collect` are left out.
- **Matrix parallelism.** `Parallel.For` runs its rows one after another. The rows are
  independent and write disjoint cells, which `Matrix.ProductRow` states.
- **Matrix.ParseInt32.** Culture settings, thousands separators, exponent and hexadecimal
  forms and trailing NUL characters of `int.Parse` are not modelled. It accepts optional
  white space (space and tab to carriage return), an optional sign and decimal digits.
- **Matrix.GenerateMatrixByRule.** A rule that throws is not modelled: rules are total
  functions.
- **Tokenizer reading.** `StreamReader` and `ReadLine` are left out: the file is given as
  its lines, which hold no line breaks, so '\n' and '\r' as delimiters change nothing.
- **Tokenizer enumeration.** `GetEnumerator` and the `IEnumerable` plumbing only forward to
  `Tokenize` and are left out.
- **Tokenizer finalizer.** `GC.SuppressFinalize` is a flag. The garbage collector calling
  the finalizer is the method `Finalize`.
- **Empty delimiter set.** `Split` with an empty delimiter array splits at white space, and
  is modelled that way (`Separators`).
- **Other programs.** The hospital program (`lab4sem/2`) and the epidemic simulation
  (`lab4sem/5`) are not part of this model. They are driven by concurrent tasks, delays,
  randomness and floating point.
