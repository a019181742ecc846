# Expense tracker and weather viewer: a Dafny model

This project models the logic inside two small dashboard scripts.

The **expense tracker** keeps a ledger of expense records: date, category, amount and description.
- The ledger changes in three ways: a manual form appends a record, a CSV upload is cleaned and put in front of the ledger, and a per-row button deletes a record by position.
- It is read through a sidebar filter (inclusive date range and a set of categories), a monthly summary, a per-category summary, the five largest categories, and a monthly budget alert.

The **weather viewer** does four things:
- picks an icon and a card colour from a weather description by keyword precedence;
- splits the comma-separated city box;
- samples one forecast entry per day (every eighth three-hourly entry);
- maps the unit choice to API units and an axis label.

Modules, one per file:
- `Wrappers` (`wrappers.dfy`): `Option`.
- `Dates` (`dates.dfy`): calendar days, their order, and the monthly period key. Period `p` is the number of months since January 1970.
- `PyStr` (`py_str.dfy`): the Python string operations the scripts use. These are `lower()`, `in`, `strip()`, `split(',')`, `split()[0]`, and string comparison by code point.
- `Grouping` (`grouping.dfy`): group-by-and-sum with keys in ascending order, and "sort by total descending, keep the first n".
- `ExpenseRecords` (`expense_records.dfy`): records, cleaning of an uploaded table, and removal by position.
- `ExpenseQueries` (`expense_queries.dfy`): filter, shown row positions, default filter settings, summaries, top five, and the budget.
- `ExpenseLedger` (`expense_ledger.dfy`): the `Ledger` class. Its `records` field changes in place. A ghost `saved` field stands for the expenses file that every change is written to.
- `Weather` (`weather.dfy`): the keyword rules, the city list, the forecast sampling loop, and the units.

Modelling choices:
- Amounts are exact `real`s.
- Dates are `(year, month, day)` values.
- Date parsing, `to_datetime(errors='coerce')`, is a parameter of type `string -> Option<Date>`.
- A category is an `Option<string>`, where `None` is a missing value (NaN). `read_csv` reads a Category cell as missing when it is empty or holds one of pandas' default missing-value spellings such as "NA", "N/A", "null" and "nan" (`NaStrings`, `ReadCategory`). This applies both to an upload and to the saved file. A file without a Category column has `None` in every row. The filter's `isin` matches missing categories like any other, but `groupby('Category')` drops them, so their amounts appear in the monthly summary and in no category row.
- A category typed into the form is kept as typed for the rest of that session, even when it is empty or reads "N/A". Written to the file and read back by a later session, such a text becomes `None` (`ReadBack`).

Two points where the code's behaviour may be unexpected:
- **Deleting a position that is not in the ledger.** One might expect this to be a silent no-op, but `drop(index=...)` raises a KeyError. `Ledger.Delete` therefore requires a position inside the ledger. That is the only kind of position the buttons carry, as `ShownPositionsSpec` shows.
- **What the summaries and the budget alert are computed over.** They use the filtered records (`expense_tracker.py:117`), not the whole ledger. `MonthlySummary` and `BudgetAlert` take whatever sequence they are given, and the dashboard passes `Filter(...)`.

## Model

| member | source | states |
|---|---|---|
| ExpenseLedger.Ledger.constructor | expense_tracker.py:27-31 | The ledger starts as the saved file's rows as they read back (categories spelled as a missing value become missing) when the file exists, otherwise empty; the file and the session agree |
| ExpenseLedger.Ledger.Add | expense_tracker.py:44-52 | Appends exactly the new record, with the typed text as its category, after all existing ones; the amount is non-negative as the form enforces; the file is rewritten |
| ExpenseRecords.ReadCategory | expense_tracker.py:29 | A Category cell is read as missing exactly when it is absent or is one of pandas' default missing-value texts (the empty string among them); otherwise it is kept (the same rule applies to uploads at line 57) |
| ExpenseRecords.ReadBack | expense_tracker.py:29 | Reading the saved rows back keeps their number and each row's date, amount and description |
| ExpenseRecords.ReadBackSpec | expense_tracker.py:29 | Only categories spelled as a missing value change on reading back (they become missing); every other record comes back unchanged, no record read back holds a missing-value spelling, and reading back twice is reading back once |
| ExpenseRecords.CleanRows | expense_tracker.py:60-61 | Dropping the rows whose date does not parse never adds a row (membership and order are stated by the lemmas below) |
| ExpenseRecords.CleanImport | expense_tracker.py:57-65 | An upload contributes at most as many records as the file has rows, and none of them holds a category spelled as a missing value |
| ExpenseRecords.UploadNaCategoryExample | expense_tracker.py:57-61 | An uploaded row whose Category cell reads "N/A" is imported with a missing category |
| ExpenseLedger.Ledger.Import | expense_tracker.py:56-70 | The ledger becomes the cleaned upload followed by the old records in their old order; every record still has a real date |
| ExpenseLedger.Ledger.Delete | expense_tracker.py:109-112 | The ledger becomes the old one without position i, renumbered from 0; the file is rewritten |
| ExpenseRecords.CleanRowsMembers | expense_tracker.py:60-61 | A row is kept exactly when its date parses, and each kept record carries its row's parsed date, its row's category as `read_csv` reads it, and its row's amount |
| ExpenseRecords.CleanRowsAppend | expense_tracker.py:60-61 | Dropping unparseable rows keeps file order: cleaning distributes over concatenation |
| ExpenseRecords.CleanRowsCount | expense_tracker.py:60-61 | A file with no parseable date contributes nothing; one whose dates all parse loses no row |
| ExpenseRecords.CleanImportValid | expense_tracker.py:60-61 | Every imported record has a real calendar date when the parser only yields real dates |
| ExpenseRecords.CleanImportDescriptions | expense_tracker.py:64-65 | Without a Description column every imported record reads "No Description"; with one, each keeps its row's own text |
| ExpenseRecords.RemoveAt | expense_tracker.py:110-111 | One shorter; records before i keep their positions, those after move down by one; the multiset loses exactly the removed record |
| ExpenseQueries.Filter | expense_tracker.py:90-94 | The filter never shows more records than the ledger holds; its exact content and order are stated by `FilterMembers`, `FilterAppend` and `ShownPositionsSpec` |
| ExpenseQueries.FilterMembers | expense_tracker.py:90-94 | A record is shown exactly when it is in the ledger, start <= date <= end (both ends included) and its category is selected |
| ExpenseQueries.FilterAppend | expense_tracker.py:90-94 | The filter keeps ledger order: it distributes over concatenation |
| ExpenseQueries.FilterIdempotent | expense_tracker.py:90-94 | Filtering the filtered records again with the same settings changes nothing |
| ExpenseQueries.ShownPositions | expense_tracker.py:103-109 | The ledger positions behind the shown rows are in range and strictly increasing |
| ExpenseQueries.ShownPositionsSpec | expense_tracker.py:103-109 | The k-th shown position holds the k-th filtered record, and a position is shown exactly when its record passes the filter |
| ExpenseQueries.EarliestDate | expense_tracker.py:81 | The default start is a date in the ledger no later than any other |
| ExpenseQueries.LatestDate | expense_tracker.py:82 | The default end is a date in the ledger no earlier than any other |
| ExpenseQueries.Categories | expense_tracker.py:86 | The default category selection offers every record's category, missing ones included, and nothing else |
| ExpenseQueries.DefaultFilterShowsAll | expense_tracker.py:81-94 | With the default range and all categories selected, the filter shows the whole ledger |
| ExpenseQueries.AllSelectedKeepsAll | expense_tracker.py:90-94 | A filter that every record passes returns the ledger unchanged |
| ExpenseQueries.MonthlySummary | expense_tracker.py:117-118 | The monthly summary's rows are in strictly ascending month order |
| ExpenseQueries.MonthlySummarySpec | expense_tracker.py:117-118 | One row per month present (ascending order is `MonthlySummary`'s own contract); each total is that month's sum; the totals add up to the sum of all amounts |
| Dates.MonthOf | expense_tracker.py:117 | The period key of a date counts months from January 1970: divided by 12 it gives the year's offset from 1970, and its remainder is the month minus one |
| Dates.MonthYear | expense_tracker.py:117 | A period key decodes to a month 1..12 of a year whose first day has that key |
| Dates.MonthYearOfMonth | expense_tracker.py:117 | Decoding a date's period key gives back its year and month |
| Dates.SameMonthIff | expense_tracker.py:117-118 | Two dates are grouped together exactly when they share year and month |
| Dates.MonthOfMonotone | expense_tracker.py:117-118 | Period keys follow chronological order, so ascending keys are ascending months |
| Dates.DaysInMonth | expense_tracker.py:60 | A month has 28 to 31 days; February has 29 exactly in leap years |
| ExpenseQueries.CategorySummary | expense_tracker.py:133 | The category summary's keys are strictly ascending in string order |
| ExpenseQueries.CategorySummarySpec | expense_tracker.py:133 | One row per category name present (string order is `CategorySummary`'s own contract), each with that category's sum; the totals add up to all amounts less those of records with a missing category |
| ExpenseQueries.Categorised | expense_tracker.py:133 | Keeping the records that have a category never adds a record |
| ExpenseQueries.CategorisedSpec | expense_tracker.py:133 | The kept records are exactly those with a category; per name they sum to the ledger's amounts for that category; with the uncategorised amounts they make up the ledger's total |
| ExpenseQueries.CategorisedNames | expense_tracker.py:133 | The names of the records kept for grouping are exactly the ledger's category names |
| ExpenseQueries.NaCategoryExample | expense_tracker.py:29-133 | A category typed as "N/A" has its own summary row in its session, and after saving and reading back the category summary is empty |
| ExpenseQueries.BlankCategoryExample | expense_tracker.py:90-133 | A record with a blank category is shown by the filter and counted in its month, and the category summary is empty |
| PyStr.StrLt | expense_tracker.py:133 | String order never relates a string to itself, and a proper prefix comes first |
| ExpenseQueries.StrLtIsStrictTotalOrder | expense_tracker.py:133 | String comparison is irreflexive, transitive and total, so it orders the category keys |
| ExpenseQueries.TopCategories | expense_tracker.py:142 | At most five rows, with non-increasing totals |
| ExpenseQueries.TopCategoriesSpec | expense_tracker.py:142 | min(5, number of category names) rows, drawn from the category summary, and no omitted category has a larger total than a listed one |
| Grouping.GroupSum | expense_tracker.py:118 | Grouping never gives more rows than items, and gives none exactly when there are no items |
| Grouping.GroupSumSpec | expense_tracker.py:117-118 | Grouping yields strictly ascending keys, exactly the keys present, each row the sum of its key's amounts, totals summing to the overall sum |
| Grouping.AddToKeysAndTotals | expense_tracker.py:118 | Adding an amount to a summary adds its key and raises that key's total, and only that one, by the amount |
| Grouping.AddToSorted | expense_tracker.py:118 | Adding an amount keeps the summary's keys strictly ascending |
| Grouping.SortedRowTotal | expense_tracker.py:118 | In a strictly sorted summary each row's total is the total recorded for its key |
| Grouping.SortedKeysCount | expense_tracker.py:133 | A summary with strictly ascending keys has exactly one row per key |
| Grouping.SortDesc | expense_tracker.py:142 | Sorting by total gives a non-increasing permutation of the rows |
| Grouping.InsertDesc | expense_tracker.py:142 | Inserting a row into a non-increasing sequence keeps it non-increasing and adds exactly that row |
| Grouping.Top | expense_tracker.py:142 | The first n rows by total: min(n, size) rows, non-increasing, a sub-multiset, every omitted row's total at most every kept row's |
| ExpenseQueries.LoadBudget | expense_tracker.py:149 | The budget is 0 when no budget was saved, and the saved value otherwise |
| ExpenseQueries.OverBudget | expense_tracker.py:164 | A summary row is selected exactly when its total is strictly above the budget |
| ExpenseQueries.MonthsOf | expense_tracker.py:166 | The flagged months, row by row, in the order of the rows |
| ExpenseQueries.BudgetAlert | expense_tracker.py:163-168 | Nothing is checked unless the budget is positive; "within budget" exactly when no month's total exceeds it; otherwise the months shown are exactly those strictly above it, and there is at least one |
| ExpenseQueries.NoBudgetNoAlert | expense_tracker.py:149 | Without a saved budget no alert is shown |
| ExpenseQueries.OverBudgetAscending | expense_tracker.py:164 | Picking the months over budget keeps ascending month order |
| ExpenseQueries.ExceededMonthsAscending | expense_tracker.py:164-166 | The months listed in the warning are in ascending month order |
| ExpenseQueries.JanuaryOverBudgetExample | expense_tracker.py:163-166 | January totals 100 + 50 = 150, February 30; with a budget of 120 only January is flagged |
| PyStr.Lower | weather_app.py:32 | Lowering keeps the length and lowers each letter in place |
| PyStr.LowerHasNoUpper | weather_app.py:32 | A lowered description has no upper-case letter |
| PyStr.LowerIdempotent | weather_app.py:32 | Lowering twice is lowering once |
| PyStr.Contains | weather_app.py:33 | The empty keyword is in every text, and a keyword longer than the text is not in it |
| PyStr.ContainsIffOccurs | weather_app.py:33 | `k in d` holds exactly when k occurs in d at some position |
| Weather.FirstMatchSpec | weather_app.py:33-44 | A keyword chain returns the default when no rule matches, and otherwise the result of the earliest matching rule |
| Weather.WeatherIcon | weather_app.py:31-44 | The icon is one of the six; it is the thermometer exactly when none of cloud, rain, clear, snow, "strom" or "thunder" occurs in the lowered description |
| Weather.WeatherIconFollowsRules | weather_app.py:31-44 | The icon is the first match of the lowered description against cloud, rain, clear, snow, then "strom" or "thunder", with the thermometer as default |
| Weather.WeatherIconIgnoresCase | weather_app.py:32 | The icon does not depend on letter case |
| Weather.CloudOutranksRain | weather_app.py:33-36 | "Rain Cloud", in any case, gets the cloud icon |
| Weather.StormFallsThrough | weather_app.py:41-44 | The keyword is literally "strom": "Storm" gets the default icon |
| Weather.BgColour | weather_app.py:47-58 | The colour is one of the five; it is #f1f2f6 exactly when none of "clouds", rain, clear or snow occurs in the lowered description |
| Weather.BgColourFollowsRules | weather_app.py:47-58 | The colour is the first match against "clouds", rain, clear, snow, with #f1f2f6 as default |
| Weather.CloudyIsNotClouds | weather_app.py:49 | "Cloudy" does not contain "clouds" and gets the default colour |
| Weather.ThunderHasNoColour | weather_app.py:47-58 | There is no thunder colour: "Thunder" gets the default |
| Weather.CloudsContainsCloud | weather_app.py:33 | Every description containing "clouds" contains "cloud" |
| Weather.IconAndColourAgree | weather_app.py:31-58 | The cloud colour comes with the cloud icon; the rain, clear and snow icons come with their own colours |
| PyStr.Split | weather_app.py:96 | Splitting on a separator gives (number of separators + 1) pieces, none holding the separator |
| PyStr.JoinSplit | weather_app.py:96 | Joining the pieces with the separator gives back the input |
| PyStr.IsSpace | weather_app.py:96 | Space, tab, newline, carriage return, vertical tab and form feed are whitespace; no comma, digit or ASCII letter is |
| PyStr.Strip | weather_app.py:96 | The result is the input without its leading and trailing whitespace: all that is cut is whitespace and the result neither starts nor ends with whitespace |
| Weather.CityList | weather_app.py:95-96 | An empty box gives no city; otherwise (commas + 1) cities in input order, the i-th being the i-th piece stripped |
| Weather.CityListSpec | weather_app.py:96 | Each city is free of commas and of surrounding whitespace, and the unstripped pieces re-joined with commas give back the box |
| Weather.StripKeepsOut | weather_app.py:96 | Stripping never introduces a character and leaves no whitespace at either end |
| PyStr.FirstWord | weather_app.py:129 | The first maximal run of non-whitespace after leading whitespace; empty exactly when the text is all whitespace |
| Weather.SampleForecast | weather_app.py:125-132 | ceil(n/8) dates and as many temperatures; the k-th pair comes from entry 8k: the first word of its timestamp and its temperature |
| Weather.CeilingDivision | weather_app.py:128 | A loop stepping by 8 from 0 below n runs ceil(n/8) times |
| Weather.UnitsFor | weather_app.py:90 | "metric" exactly for Celsius, "imperial" for any other option |
| Weather.AxisLabel | weather_app.py:137 | The label is "Temp (°C)" or "Temp (°F)", and "Temp (°C)" exactly for metric units |
| Weather.AxisLabelMatchesOption | weather_app.py:137 | The axis reads °C exactly when Celsius was chosen and °F otherwise |

## Left out

- Streamlit widgets, page layout, HTML, `st.rerun`, and session-state caching. This includes the re-execution that merges a still-uploaded file again on every run of the script: that is behaviour of the framework, not of the ledger.
- Charts. The matplotlib figures, `st.bar_chart`, and pie percentages are display only.
- Reading and writing `expenses_data.csv`, except how categories read back (`ReadBack`). The ghost `saved` field only records that every change is written through.
- Reading and writing `budget.json`, including the Save Budget button. `LoadBudget` takes the file's content as an `Option`.
- The Excel export.
- Date parsing and formatting. `pd.to_datetime` is the parser parameter; `strftime` and `utcfromtimestamp` are output formatting.
- Time of day. Dates are calendar days. A CSV timestamp later than midnight on the end date would be excluded by the code's `<=`; the model cannot show that.
- Dates outside the range pandas timestamps can hold.
- Floating-point rounding. Amounts are exact reals, and NaN amounts are not modelled: a blank Amount cell, or a file with no Amount column (whose rows `concat` fills with NaN), is outside the model. `groupby(...).sum()` would count such amounts as 0.
- How `to_datetime(errors='coerce')` parses the Date column as a whole. pandas 2 infers one format from the first non-missing value, so a row whose date is written in another format becomes NaT and is dropped. The parser parameter judges each text on its own, so the model cannot show this; `CleanRowsAppend` holds because of that simplification.
- ExpenseRecords.ReadCategory: does not model `read_csv`'s type inference. When every Category cell of a file (an upload or the saved file) looks like a number or a boolean, pandas reads the column as numbers or booleans. Then "01" and "1" become one category, numeric categories sort by value (9 before 10), and "True"/"False" become booleans. The model keeps such categories as text.
- ExpenseRecords.ReadBackSpec: "every other record comes back unchanged" holds only for text categories, for the same type-inference reason as `ReadCategory`.
- CSV files without a Date column. The code raises a KeyError at `csv_data['Date']`; the model assumes the column exists.
- Description cells that are blank or hold one of the missing-value texts of `NaStrings`, which read as NaN, both in an upload and when the saved file is read back. Descriptions are only displayed, so the model keeps them as text.
- The HTTP requests to the weather service and the API key. The description, timestamp text and temperature are inputs, and the "city not found" branch is not modelled.
- `city.title()` and `weather_desc.title()` display formatting.
- PyStr.Lower: only ASCII letters are lowered. Python's full Unicode case mapping is not modelled, so descriptions with non-ASCII capitals are outside the model.
- Grouping.SortDesc: `sort_values(ascending=False)` uses an unstable sort, so the order among equal totals is not specified. The model uses one fixed order, with ties in reverse input order, and proves only properties that hold for any order of ties.
- Weather.SampleForecast: requires every sampled timestamp to contain a non-space character. On an all-whitespace `dt_txt`, `split()[0]` raises an error in the script.
- ExpenseLedger.Ledger.Delete: requires a position inside the ledger. The code's `drop` raises an error otherwise; see above.
- The month labels of the budget warning are not modelled as text. `Dates.MonthYear` gives the (year, month) pair they print.
