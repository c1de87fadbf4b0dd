# acc_py parsers and category flattening in Dafny

acc_py is a personal-accounting command-line tool. Every prompt and argument passes
through a parser module that turns a string into one of these:
- an amount (an arithmetic expression or a decimal, at least some lower bound);
- a currency code, or an amount followed by a currency;
- a date relative to today;
- a monthly period relative to a default period;
- a category name;
- a column name;
- a query filter.

Each parser either returns the value or raises an exception. The categories come
from a JSON file of category items that may have sub-categories. That list is
flattened into a `shortname → description` dictionary, and into a keybind dictionary
`key → shortname` or `key → {subkey → shortname}` with sorted keys.

The model is split into these modules:
- `Outcomes` (outcomes.dfy): `Result`/`Option`. The error kinds are `SyntaxError`, `ValueError`, `KeyError` and `Other`. `Other` covers the AttributeError, IndexError, OverflowError and ZeroDivisionError paths.
- `PyText` (pytext.dfy): the string operations the parsers rely on:
  - `str.isspace` (the full Unicode whitespace set), `str.strip`, `str.split()`, `str.upper` (ASCII letters);
  - ASCII `\d`/`\w`;
  - `int()` of a digit string, including its 4300-digit limit.
- `Numerals` (numerals.dfy): `float()` of a decimal literal, computed as an exact `real`.
- `Arithmetic` (arithmetic.dfy): a tokenizer, a recursive-descent parser and an evaluator. Together they stand for the restricted `eval`: numbers, `+ - * /`, parentheses and unary signs.
- `Calendar` (calendar.dfy):
  - the proleptic Gregorian calendar of `datetime.date` (years 1..9999);
  - day ordinals and adding a `timedelta` of days;
  - `strptime` with the formats `%Y %m %d` and `%y %m %d`.
- `Dicts` (dicts.dfy): a Python `dict` as an insertion-ordered sequence of pairs. It models `dict.update` of one key and the `sort_dict` comprehension.
- `Get` (get.dfy): the two flattening loops of get.py, written as methods with loops. Each is proved equal to a fold function over the item list.
- `CoreParser` (core_parser.dfy): the eight parsers of core_parser.py, and the properties proved about them.

Today's date (`date.today()`) and the index drawn by `random.choice` are parameters.

The code and its design description disagree in several places. The model follows the code:
- `parse_period` takes any all-digit text as a month number, not only one or two digits. So "2025" in the default year 2025 is month 2025 of that year, which is September 2193.
- Period text that is not blank, "0", all digits, or of the explicit `YY|YYYY sep M` shape fails with an AttributeError (`Other`), because `.groups()` is then called on `None`. It is not a SyntaxError. The explicit shape needs one or two month digits, so "2025-" also fails this way.
- `parse_date` does not accept the word "today".
- Filter keywords are case sensitive.
- The filter has no "and" conjunction, no id clause and no `sql:` escape.
- `parse_double_currency` has no default currency.

## Model

| member | source | states |
|---|---|---|
| CoreParser.ParseArithmeticOperation | acc_py/src/acc_py/utilities/core_parser.py:20-40 | every result is at least the lower bound; errors are SyntaxError, ValueError or Other (only for empty input or after a leading `+`/`=`) |
| CoreParser.ArithmeticEvaluates | acc_py/src/acc_py/utilities/core_parser.py:26-32 | a leading `+` or `=` evaluates the rest of the text as arithmetic, then checks the bound; the word-character guard never fires |
| CoreParser.ArithmeticExpression | acc_py/src/acc_py/utilities/core_parser.py:26-38 | after `+`/`=`, the text of any expression tree gives exactly that tree's value, bounded below |
| CoreParser.ArithmeticOfDecimal | acc_py/src/acc_py/utilities/core_parser.py:33-38 | any other first character sends the whole text to `float()`, then checks the bound |
| CoreParser.ArithmeticDecimal | acc_py/src/acc_py/utilities/core_parser.py:33-38 | the decimal text of any integer i (e.g. "-5") gives i itself, or a ValueError when i is below the bound |
| CoreParser.ArithmeticOperationOfNumerals | acc_py/src/acc_py/utilities/core_parser.py:26-38 | `+a op b` or `=a op b` with trailing blanks, for numerals of at most 4300 digits, gives the value of `a op b`, bounded below |
| CoreParser.ArithmeticLongLiteral | acc_py/src/acc_py/utilities/core_parser.py:26-32 | an integer literal of more than 4300 digits after `+`/`=` makes the whole text a SyntaxError, since compiling it converts the literal with `int()` |
| CoreParser.ArithmeticQuotient | acc_py/src/acc_py/utilities/core_parser.py:32-38 | `=a/b` (numerals of at most 4300 digits) is a division error when b is 0, and a/b bounded below otherwise |
| CoreParser.ArithmeticExampleSum | acc_py/src/acc_py/utilities/core_parser.py:26-40 | "=1+1" with lower bound 0 gives 2 |
| CoreParser.ArithmeticExampleBelowBound | acc_py/src/acc_py/utilities/core_parser.py:37-38 | "=2+2" with lower bound 10 is a ValueError |
| CoreParser.ArithmeticExampleDecimals | acc_py/src/acc_py/utilities/core_parser.py:26-35 | "10" is 10 and "-5" is -5 (a decimal, not an expression); the empty text fails at `expr[0]` |
| CoreParser.ParseCurrency | acc_py/src/acc_py/utilities/core_parser.py:43-47 | as written: a success is the upper-cased input; a failure is a ValueError |
| CoreParser.CurrencyIdempotent | acc_py/src/acc_py/utilities/core_parser.py:43-47 | parsing an accepted currency's result again gives the same result |
| CoreParser.CurrencyAgrees | acc_py/src/acc_py/utilities/core_parser.py:43-47 | on every text not ending in a newline, the code as written agrees with the three-letter rule |
| CoreParser.CurrencyTrailingNewline | acc_py/src/acc_py/utilities/core_parser.py:44-45 | "usd\n" is accepted as "USD\n", which is not a currency code; the strict rule rejects it |
| CoreParser.ParseCurrencyStrict | acc_py/src/acc_py/utilities/core_parser.py:43-47 | accepted exactly when the text is three ASCII letters; the result is their upper case and a currency code; otherwise a ValueError |
| CoreParser.CurrencyStrictIdempotent | acc_py/src/acc_py/utilities/core_parser.py:43-47 | the strict parser is idempotent on its results |
| CoreParser.CurrencyStrictCodes | acc_py/src/acc_py/utilities/core_parser.py:43-47 | every currency code is accepted as itself, and so is every spelling of it in mixed case |
| CoreParser.ParseDoubleCurrency | acc_py/src/acc_py/utilities/core_parser.py:84-91 | on success the amount is at least the bound and the currency is three upper-case letters; every failure is a SyntaxError |
| CoreParser.DoubleCurrencyParts | acc_py/src/acc_py/utilities/core_parser.py:84-91 | the last three word characters are the currency and everything before them is the operation; the pair succeeds exactly when both parts do |
| CoreParser.DoubleCurrencyNeedsOperation | acc_py/src/acc_py/utilities/core_parser.py:85-91 | a bare currency fails with a SyntaxError, because the empty operation fails |
| CoreParser.DoubleCurrencyOfOperation | acc_py/src/acc_py/utilities/core_parser.py:84-91 | an operation followed by three letters gives the operation's amount and the upper-cased letters, or a SyntaxError when the amount fails |
| CoreParser.DoubleCurrencySum | acc_py/src/acc_py/utilities/core_parser.py:84-91 | `=a+b ccc` (numerals of at most 4300 digits) gives (a+b, upper ccc) when a+b reaches the bound, else a SyntaxError; "=9+9 usd" is the case (18, "USD") |
| CoreParser.ParseDate | acc_py/src/acc_py/utilities/core_parser.py:50-81 | every date returned is a valid calendar date; errors are SyntaxError, ValueError or Other, and Other only for a signed day offset |
| CoreParser.DateToday | acc_py/src/acc_py/utilities/core_parser.py:52-55 | blank text or "0", after stripping, gives today |
| CoreParser.DateOffset | acc_py/src/acc_py/utilities/core_parser.py:58-60 | `+N`/`-N` is today shifted by ±N days; it succeeds exactly when the result lies in years 1..9999; more than 4300 digits is a ValueError |
| CoreParser.DateDayOfMonth | acc_py/src/acc_py/utilities/core_parser.py:65-67 | one or two digits give day N of today's month and year, or a ValueError when that day does not exist |
| CoreParser.DateDayMonth | acc_py/src/acc_py/utilities/core_parser.py:70-73 | "D M" gives day D of month M of today's year, or a ValueError when there is no such date |
| CoreParser.DateFormatted | acc_py/src/acc_py/utilities/core_parser.py:75-81 | every valid date written as "YYYY MM DD" is read back as itself |
| CoreParser.DateShortFormatted | acc_py/src/acc_py/utilities/core_parser.py:75-81 | every date of 1969..2068 written as "YY MM DD" is read back as itself, through the second format |
| CoreParser.DateOfWord | acc_py/src/acc_py/utilities/core_parser.py:75-81 | text that starts with neither a digit nor a sign fits no format and is a SyntaxError |
| CoreParser.MonthlyPeriod | acc_py/src/acc_py/utilities/core_parser.py:100 | a (year, month) pair with any month number is the valid period with month ordinal (year−1970)·12+month−1, and is the pair itself for months 1..12 |
| CoreParser.PeriodOrdinalInjective | acc_py/src/acc_py/utilities/core_parser.py:100 | distinct valid periods have distinct month ordinals |
| CoreParser.ParsePeriod | acc_py/src/acc_py/utilities/core_parser.py:94-106 | succeeds exactly for blank text, "0", a convertible month number, or a two- or four-digit year, a separator and one or two month digits; every result is a valid period; failures are ValueError (only for more than 4300 digits) or Other |
| CoreParser.PeriodOtherShape | acc_py/src/acc_py/utilities/core_parser.py:102 | text of none of the accepted shapes is an AttributeError from `.groups()` on None |
| CoreParser.PeriodWithoutMonth | acc_py/src/acc_py/utilities/core_parser.py:102 | a year and a separator with no month digits ("2025-", "25/") is no match and fails the same way |
| CoreParser.PeriodOfMonthNumber | acc_py/src/acc_py/utilities/core_parser.py:99-100 | all-digit text N gives month N counted from January of the default year |
| CoreParser.PeriodMonthOverflow | acc_py/src/acc_py/utilities/core_parser.py:99-100 | a month number above the C int range is an overflow error |
| CoreParser.PeriodOfBareYear | acc_py/src/acc_py/utilities/core_parser.py:99-100 | a four-digit year alone is read as a month count; "2025" in 2025 is September 2193 |
| CoreParser.PeriodExplicit | acc_py/src/acc_py/utilities/core_parser.py:102-106 | `YY` or `YYYY`, a space, `-` or `/`, and a 1–2 digit month give that period, with 2000 added to two-digit years |
| CoreParser.PeriodFormatted | acc_py/src/acc_py/utilities/core_parser.py:102-106 | every period of years 100..9999 written as "YYYY-MM" is read back as itself |
| CoreParser.PeriodOfWord | acc_py/src/acc_py/utilities/core_parser.py:102 | text starting with a non-digit is an AttributeError from `.groups()` on None |
| CoreParser.ParseCategory | acc_py/src/acc_py/utilities/core_parser.py:109-118 | nonempty text succeeds exactly when its upper case is a key, and then gives that upper case; else a KeyError. Empty text gives some key, or fails when the dictionary is empty |
| CoreParser.CategoryCaseInsensitive | acc_py/src/acc_py/utilities/core_parser.py:115-116 | two spellings of a name that differ only in case give the same result |
| CoreParser.CategoryIdempotent | acc_py/src/acc_py/utilities/core_parser.py:109-118 | when every key is upper case, the category parsed from a result is that result again |
| CoreParser.CategoryFromFile | acc_py/src/acc_py/utilities/core_parser.py:109-118 | a category accepted against the flattened file is contributed by some item of the file |
| CoreParser.ParseValidElementList | acc_py/src/acc_py/utilities/core_parser.py:186-208 | a name succeeds exactly when it is a keybind or in the list; a position succeeds exactly when it is inside the list and then gives the element there; any other argument fails. A result is an element of the list or the keybind's value; failures are KeyError for names, ValueError for positions and SyntaxError for other arguments |
| CoreParser.ElementKeybindFirst | acc_py/src/acc_py/utilities/core_parser.py:193-195 | a keybind wins over list membership |
| CoreParser.ElementByName | acc_py/src/acc_py/utilities/core_parser.py:196-199 | a name that is not a keybind gives itself when it is in the list, a KeyError otherwise |
| CoreParser.ElementAtIndex | acc_py/src/acc_py/utilities/core_parser.py:202-206 | position i gives element i when 0 ≤ i < len, whatever the keybinds are, and a ValueError otherwise |
| CoreParser.ElementOwnName | acc_py/src/acc_py/utilities/core_parser.py:193-197 | an element that no keybind shadows, given by its name, gives itself |
| CoreParser.ElementInList | acc_py/src/acc_py/utilities/core_parser.py:186-208 | when every keybind's value is in the list, every result is in the list |
| CoreParser.FilterOfWords | acc_py/src/acc_py/utilities/core_parser.py:134-179 | a SyntaxError exactly when the words fit no case of the match; no condition exactly when there are no words; ValueError only for the four-word amount clause; each kind of filter comes only from the words of its own case, with the pattern taken from its position (upper-cased for categories and currencies) |
| CoreParser.ParseSemanticFilter | acc_py/src/acc_py/utilities/core_parser.py:130-179 | blank or whitespace-only text, and only that, gives all records; a SyntaxError exactly when the split words fit no case; other failures are ValueError |
| CoreParser.FilterBadAmount | acc_py/src/acc_py/utilities/core_parser.py:137-140 | non-numeric amount bounds are a ValueError from `float()`, not a SyntaxError |
| CoreParser.FilterFirstMatch | acc_py/src/acc_py/utilities/core_parser.py:143-153 | the first fitting case wins: "date = r" is an equality, "date like regex" a LIKE, and the two words "date like" a LIKE on "like" |
| CoreParser.FilterCaseSensitive | acc_py/src/acc_py/utilities/core_parser.py:134-179 | "Date x" and "AMOUNT between x x" are SyntaxErrors; "date x between" is one unless x is "like" or "=" |
| CoreParser.FilterOfRender | acc_py/src/acc_py/utilities/core_parser.py:137-171 | every clause of the table, written out in words, is parsed as that clause (categories and currencies upper-cased) |
| CoreParser.AmountOfWords | acc_py/src/acc_py/utilities/core_parser.py:137-140 | `amount|am between|b lo hi` with numeric bounds gives the amount range |
| CoreParser.FilterRoundTrip | acc_py/src/acc_py/utilities/core_parser.py:130-179 | every well-formed filter (single-word patterns, integral amount bounds), joined into one line of text, is parsed back as itself |
| Arithmetic.Evaluate | acc_py/src/acc_py/utilities/core_parser.py:32 | the evaluation of the text fails only with a SyntaxError or a division error |
| Arithmetic.Eval | acc_py/src/acc_py/utilities/core_parser.py:32 | evaluating a tree fails only by dividing by zero |
| Arithmetic.ParseShow | acc_py/src/acc_py/utilities/core_parser.py:32 | the parser reads the tokens of any expression tree back as that tree |
| Arithmetic.EvaluateTokens | acc_py/src/acc_py/utilities/core_parser.py:32 | text that tokenizes to a tree's tokens evaluates to the tree's value |
| Arithmetic.EvalQuotient | acc_py/src/acc_py/utilities/core_parser.py:32 | a quotient is x/y, or a division error when y is 0 |
| Numerals.ParseFloat | acc_py/src/acc_py/utilities/core_parser.py:35 | `float()` fails only with a ValueError |
| Numerals.ParseFloatIntToString | acc_py/src/acc_py/utilities/core_parser.py:35 | the decimal text of any integer is read as that integer |
| Calendar.AddDays | acc_py/src/acc_py/utilities/core_parser.py:60 | `today + timedelta(days=n)` is a valid date whose ordinal is n more than today's, or an overflow error |
| Calendar.AddDaysDefined | acc_py/src/acc_py/utilities/core_parser.py:60 | adding n days succeeds exactly when the ordinal stays in 1..3652059 |
| Calendar.AddDaysInverse | acc_py/src/acc_py/utilities/core_parser.py:60 | adding n days and then −n days gives back the start date |
| Calendar.AddDaysReaches | acc_py/src/acc_py/utilities/core_parser.py:60 | every valid date is reached from every other by adding the ordinal difference |
| Calendar.OrdinalInjective | acc_py/src/acc_py/utilities/core_parser.py:60 | distinct valid dates have distinct ordinals |
| Calendar.Strptime | acc_py/src/acc_py/utilities/core_parser.py:75-79 | `strptime` returns only valid dates and fails with a ValueError |
| Calendar.StrptimeFormatDate | acc_py/src/acc_py/utilities/core_parser.py:75-79 | `%Y %m %d` reads back every written date |
| Calendar.StrptimeFormatShortDate | acc_py/src/acc_py/utilities/core_parser.py:75-79 | `%y %m %d` reads back every written date of 1969..2068, and `%Y %m %d` rejects that text |
| PyText.SplitJoin | acc_py/src/acc_py/utilities/core_parser.py:134 | `split()` of words joined by single spaces gives the words back |
| PyText.SplitEmpty | acc_py/src/acc_py/utilities/core_parser.py:134 | `split()` gives no words exactly when the text is all whitespace |
| Get.FetchCategoryDictionary | acc_py/src/acc_py/utilities/get.py:5-20 | the loop builds exactly the fold of `dict.update` over the items' entries, in order |
| Get.UpdateFromSubcategories | acc_py/src/acc_py/utilities/get.py:14-16 | the inner loop adds each sub-item's `shortname → description`, in order |
| Get.UpdateFromItem | acc_py/src/acc_py/utilities/get.py:13-18 | one item adds its sub-items' entries when it has sub-items, and its own entry otherwise |
| Get.LeafContribution | acc_py/src/acc_py/utilities/get.py:17-18 | a leaf item contributes exactly its own `shortname → description`, overwriting an earlier equal shortname |
| Get.CategoryKeys | acc_py/src/acc_py/utilities/get.py:9-20 | the keys are exactly the shortnames of the leaves and of the sub-items of parent items |
| Get.CategoryLookup | acc_py/src/acc_py/utilities/get.py:9-20 | a shortname maps to the description of its last occurrence: later duplicates overwrite earlier ones |
| Get.FetchKeybindDict | acc_py/src/acc_py/utilities/get.py:24-44 | the loop builds exactly the sorted fold of `dict.update` over the items' keybinds |
| Get.KeybindSorted | acc_py/src/acc_py/utilities/get.py:28-44 | the keybind dictionary and every inner group have strictly ascending keys |
| Get.KeybindLookup | acc_py/src/acc_py/utilities/get.py:33-44 | a key maps to the keybind of the last item with that key: a shortname for a leaf, a group for a parent |
| Get.GroupLookup | acc_py/src/acc_py/utilities/get.py:35-40 | a parent's group maps each sub-key to the shortname of the last sub-item with that key |
| Dicts.SortDict | acc_py/src/acc_py/utilities/get.py:28-29 | sorting keeps exactly the same pairs and orders the keys strictly ascending |
| Dicts.SortDictLookup | acc_py/src/acc_py/utilities/get.py:28-29 | every key looks up the same value after sorting |
| Dicts.UpdateLookup | acc_py/src/acc_py/utilities/get.py:16 | after `update` of one key, that key gives the new value and every other key is unchanged |
| Dicts.UpdateDistinct | acc_py/src/acc_py/utilities/get.py:16 | `update` keeps the keys distinct |
| Dicts.FromPairsLookup | acc_py/src/acc_py/utilities/get.py:9-18 | a dictionary built pair by pair maps each key to its last value |
| Dicts.LastValueIsLast | acc_py/src/acc_py/utilities/get.py:9-18 | the last value of a key is v exactly when some pair (k, v) has no later pair with key k |

## Left out

- File handling: `open`, `json.load`, and the KeyError of an item that lacks `shortname`, `description` or `key`. The items are given as an already-parsed sequence.
- `date.today()` and `random.choice`: both are parameters.
- `print` and the `quiet` flag: they have no effect on the results.
- `None` arguments: the parsers are given strings.
- Booleans: a Python `bool` passed to `parse_valid_element_list` counts as an int. The model's `Column` has no separate boolean case.
- `parse_csv_record` is not part of this model. It depends on file reading and pandas DataFrame mutation.
- The SQLAlchemy `select` objects are represented by the `Filter` datatype that names the condition; no query is built.
- Full `eval`: the model does not cover `**`, `//`, `%`, names, calls, complex numbers, exponents, underscores in numbers, or a newline inside the expression. Each of these has its own kind of error or result in Python.
- Arithmetic.Eval: reals are exact, so IEEE float rounding, and the int result Python gives for integer-only expressions, are not modelled.
- Numerals.ParseFloat: accepts plain decimals only. "inf", "nan", exponents and underscores are not modelled, and the value is the exact real rather than the nearest double.
- Unicode: `\d`, `\w` and `upper` are their ASCII forms, so non-ASCII digits, letters and case mappings are not modelled. Whitespace (`isspace`, `\s`, `strip`, `split`) is the full Unicode set.
- CoreParser.PeriodMonthOverflow: the month-number overflow is modelled only at the C int bound on the month. Further pandas overflow of the month ordinal itself, for months just below that bound, is not modelled.
- CoreParser.FilterRoundTrip: holds for single-word patterns only, because `split()` cannot produce a pattern containing a space. It also holds only for integral amount bounds, because no decimal rendering of a non-integral real is modelled. `CoreParser.AmountOfWords` covers any bounds that `float()` reads, and `CoreParser.FilterOfWords` states the converse for every accepted word list.

## Findings

| source | as written | input that shows it | evidently intended | confidence | as-written member | corrected member |
|---|---|---|---|---|---|---|
| acc_py/src/acc_py/utilities/core_parser.py:44-45 | `parse_currency` checks `^[a-zA-Z]{3}$`, whose `$` also matches before a final newline, and returns the whole text upper-cased | "usd\n" gives "USD\n" | exactly three letters, returned upper-cased | not executed | CoreParser.CurrencyTrailingNewline | CoreParser.ParseCurrencyStrict |
