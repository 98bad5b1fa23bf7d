# Polish migration chart: verified model of the data core

`script.js` draws the "Polish Migration 1966–2024" line chart. It has three series: emigration, immigration and net migration. Most of the file drives the charting library. Its own data logic is small, and that logic is what this project models and proves in Dafny:

- **`toNum`**, the cell parser. A missing or blank cell becomes `null`. Otherwise every comma and whitespace character is deleted and the rest goes through `Number(...)`. The result is kept only when it is finite (`cells.dfy`).
- **Row preparation**. The `forEach` parses each row's three series columns in place. Then `raw.sort` puts the table in year order in place (`rows.dfy`).
- **`allVals`**. A nested loop collects every finite series value for the y domain. `d3.extent` then gives its least and greatest element (`domain.dfy`).
- **Series reshaping**. Each series gets one list of `{Year, value}` points (`lines.dfy`).
- **`nearestValid`**, the tooltip locator. It returns the index of the point with a finite value whose year is closest to the pointer's year. The earliest such index wins ties. It returns -1 when no point has a finite value (`lines.dfy`).

JavaScript values are modelled explicitly:
- `null` is `None` in `wrappers.dfy`.
- A number is a `JsNumber` (`NaN`, an integer, or one of the two infinities) in `js_numbers.dfy`.
- A series column is either the loader's raw `Cell` or the `Option<int>` that `toNum` stored there. This is what lets the parse step run in place on one array.
- `Number.isFinite` is true only of a stored number. It is false of `null` and of an unparsed string.

A cell is converted to a number as follows:
- `Number` trims whitespace first.
- An empty string becomes 0.
- An optionally signed digit string becomes its value.
- Anything else over the modelled characters becomes NaN.
- A magnitude of 2^1024 − 2^970 or more becomes an infinity. That is where a correctly rounded conversion to a double overflows.
- "Whitespace" means the WhiteSpace and LineTerminator characters. `trim()` and `\s` both use that set.

A cell such as `","` is not blank, so it gets past the blank test, but it strips to `""`, and `Number("") === 0`. So it parses to `0`, not `null` (`Cells.SeparatorsOnlyIsZero`).

## Model

| member | source | states |
|---|---|---|
| `Cells.ToNum` | script.js:37-43 | A missing cell gives `null`. A blank cell (every character whitespace) gives `null`. Every number returned is finite: its magnitude is below the overflow threshold, so NaN and ±Infinity never come out. |
| `Cells.IsWhiteSpace` | script.js:39-41 | The whitespace of `trim()` and of `/\s/` is exactly ECMAScript's WhiteSpace (TAB, VT, FF, ZWNBSP, and the Zs space separators SP, NBSP, U+1680, U+2000–U+200A, U+202F, U+205F, U+3000) together with LineTerminator (LF, CR, LS, PS). |
| `Cells.Trim` | script.js:39 | `String(v).trim()` is never longer than the cell, and a non-empty result neither starts nor ends with whitespace. |
| `Cells.TrimIsInfix` | script.js:39 | `trim()` removes a blank prefix and a blank suffix and keeps everything between them. |
| `Cells.TrimIsEmptyIffBlank` | script.js:39-40 | `String(v).trim() === ""` holds exactly when every character of the cell is whitespace. |
| `Cells.Delete` | script.js:41 | `replace(/x/g, "")` leaves none of the deleted characters and never lengthens the string. |
| `Cells.Stripped` | script.js:41 | After `.replace(/,/g, "").replace(/\s/g, "")` no comma and no whitespace character is left, and the text is never longer. |
| `Cells.StrippedIsOnePass` | script.js:41 | The two `replace` calls together are one pass that deletes exactly the commas and the whitespace, keeping every other character in order. |
| `Cells.StrippedOfTrim` | script.js:39-41 | Stripping the trimmed text gives the same as stripping the untrimmed text, so the trim only matters for the blank test. |
| `Cells.DeleteAppend` | script.js:41 | Deleting characters from a concatenation gives the concatenation of the deletions. |
| `Cells.StrippedIgnoresComma` | script.js:41 | After both deletions, a comma inserted anywhere leaves no trace. |
| `Cells.StrippedIgnoresWhiteSpace` | script.js:41 | After both deletions, a whitespace character inserted anywhere leaves no trace. |
| `Cells.ToNumIgnoresSeparator` | script.js:36-42 | Inserting a comma or whitespace character anywhere in a non-blank cell leaves `toNum`'s result unchanged, so "35,000" and "12 345" read like "35000" and "12345". |
| `Cells.SeparatorsOnlyIsZero` | script.js:39-42 | A non-blank cell made only of commas and whitespace gives `0`, not `null`. |
| `Cells.BlankAndCommaSpellings` | script.js:36-42 | `""` and `" \t"` give `null`; `","` gives `0`. |
| `Cells.GroupedRoundTrip` | script.js:36-42 | Parsing the thousands-separated spelling of an integer (with a leading minus when negative) gives that integer back. Up to 2^53 in magnitude this is what the program does. Above that the model's exact integers give the integer back up to the overflow threshold, where the program gives the nearest double. |
| `Cells.GroupedNatDigits` | script.js:41 | Deleting the commas from a thousands-separated spelling leaves a digit string whose value is the number. |
| `Cells.NumericLiteral` | script.js:41 | `Number` of a trimmed string: `""` is 0, a non-empty digit string is its value rounded to a double's range, and the result is NaN exactly when the string is neither empty, nor digits, nor a sign followed by digits. |
| `Cells.SignedLiteral` | script.js:41 | A leading `+` leaves the value of a digit string unchanged, and a leading `-` negates it. |
| `Cells.StringToNumber` | script.js:41 | `Number` of a non-empty digit string is that string's value, rounded to a double's range. |
| `JsNumbers.Rounded` | script.js:41-42 | An integer stays finite exactly when its magnitude is below 2^1024 − 2^970. A finite result keeps the integer's value. A positive overflow gives `Infinity` and a negative one `-Infinity`. The result is never NaN. |
| `JsNumbers.IsFinite` | script.js:42 | `Number.isFinite(n)` is true of a finite number and false of NaN and of both infinities. |
| `JsNumbers.RoundedOfNegation` | script.js:41 | Rounding to a double's range is symmetric: negating before or after gives the same number. |
| `JsNumbers.LessThan` | script.js:132-137 | `<` is false whenever NaN takes part. Between finite numbers it is integer order. Every finite number is below `Infinity`, and nothing is above it, so the first finite distance always replaces `bestDist`. |
| `JsNumbers.LessThanIsStrictOrder` | script.js:137 | `<` is irreflexive, asymmetric and transitive, so a later point at an equal distance never replaces the current best. |
| `Rows.SeriesKeysInOrder` | script.js:24-28 | The series config is Emigration (`#d62728`), Immigration (`#2ca02c`) and Net (`#7f7f7f`), in that order. That order fixes the order of `allVals` and of the drawn groups. |
| `Rows.Get` | script.js:67 | `r[s.key]` (also at script.js:108) reads the column its key names: Emigration, Immigration or Net. |
| `Rows.RowIsItsColumns` | script.js:67 | Each key reads its own column: a row is its year and its three keyed columns, and changing one column changes what only that column's key reads. |
| `Rows.IsFiniteField` | script.js:68 | `Number.isFinite` (also at script.js:135) is true of a stored number and false of `null` and of an unparsed string, which it does not convert. |
| `Rows.ParsedCellIsFinite` | script.js:42 | After parsing, a column is finite exactly when `toNum` returned a number. A missing or blank cell never is. |
| `Rows.ParseRow` | script.js:49-52 | The row's year is kept. Each of the three series columns becomes `toNum` of its raw cell. |
| `Rows.ParseRows` | script.js:48-53 | After the `forEach`, every array element is its row parsed, at the same position. |
| `Rows.SwapAdjacentKeeps` | script.js:56 | Exchanging two neighbours of different years is a permutation. It keeps, for every year, the order of that year's rows. |
| `Rows.OfYearAppend` | script.js:56 | The rows of one year in a concatenation are that year's rows of each part, in order. |
| `Rows.SortByYear` | script.js:56 | The array ends up ordered by year (non-decreasing). It holds the same rows (multiset equality), and the rows of each year keep their input order, so the sort is stable. |
| `Rows.StableSortIsUnique` | script.js:56 | Two year-sorted tables that agree on the order of every year's rows are equal. So the sort's postcondition fixes its outcome. |
| `Rows.PrepareRows` | script.js:48-56 | Every row is parsed, and the table is ordered by year. It is a permutation of the parsed input rows, with each year's rows in input order. Only the three series columns of a row change. |
| `Domain.CollectValues` | script.js:64-70 | `allVals` is the table's finite series values: row by row, and within a row in series order (Emigration, Immigration, Net). |
| `Domain.RowValuesOfSeries` | script.js:66-69 | One row adds as many values as it has finite columns. These are exactly the numbers in its columns. |
| `Domain.FiniteValuesLength` | script.js:64-70 | The length of `allVals` equals the number of cells that hold a finite number. |
| `Domain.FiniteValuesMembers` | script.js:64-70 | A number is in `allVals` exactly when some row has it in some series column. |
| `Domain.Extent` | script.js:72-73 | For an empty list `d3.extent` returns `[undefined, undefined]`, which `None` stands for. Otherwise it gives two values of the list, with every value between them. |
| `Domain.DomainCoversTable` | script.js:63-75 | The y domain is `[undefined, undefined]` exactly when no cell is finite. Otherwise it spans every finite cell of the table, and each of its ends is the number of some cell. |
| `Lines.Points` | script.js:108 | A series' point list is as long as the table. Point `i` has row `i`'s year, and its value is row `i`'s column for that series. |
| `Lines.Reshape` | script.js:106-109 | There is one group per configured series, with that series' key and colour. Every group has the table's length and the table's years, and its values are the table's column for its key. |
| `Lines.ValuesAreDrawnPoints` | script.js:106-109 | A number is in `allVals` exactly when some series draws a point with that value. |
| `Lines.Distance` | script.js:136 | `Math.abs(v.Year - targetYear)` is the distance `d` with the year at `target + d` or `target - d`, and it is 0 exactly at the target year. |
| `Lines.NearestValid` | script.js:131-140 | The result is -1 exactly when no point has a finite value. Otherwise it is an in-range index with a finite value, at the least distance from the target year among finite points. Every earlier finite point is strictly farther, so ties go to the earliest index. |
| `Lines.FirstNearestIsUnique` | script.js:131-140 | At most one index meets `nearestValid`'s postcondition. |

## Left out

- Rendering is not modelled: the SVG, axes, labels, the line generator and its `.defined`, focus dots, tooltip HTML and styling (script.js:1-22, 30-34, 58-62, 74-103, 110-128, 143-187). It is all calls into the charting library and the DOM.
- Loading the CSV (`d3.csv(...).then`, script.js:46) is I/O. The model starts from the loaded rows.
- Mouse handlers are not modelled: `d3.pointer`, `x.invert`, `Math.round` and `y.nice()` are UI events and floating-point scale arithmetic. The rounded target year is an integer parameter of `NearestValid`.
- `+d.Year` (script.js:49) is not modelled. Years are integers from the start, so non-numeric years (NaN) and the comparator's NaN result are outside the model.
- Cells.ToNum: requires a text cell to hold only digits, `+`, `-`, commas and whitespace. Decimals, exponents, hexadecimal, binary and octal literals, and `"Infinity"`, which `Number` also accepts, are not modelled.
- Cells.ToNum: numbers are exact integers. The source rounds integers above 2^53 to the nearest double and keeps `-0` apart from `0`. The model does neither.
- Rows.PrepareRows: requires every series column to be raw, as the loader provides it. The source runs the step once, right after loading.
- Rows.ParseRows: the source mutates each row object in place. The model stores a new row value at the same array position, so aliasing of row objects is not captured.
- Rows.SortByYear: the engine's sort algorithm is not modelled. It is an insertion sort whose contract is the stable-sort contract.
- Cells.GroupedRoundTrip: holds of the model's exact integers. Above 2^53 in magnitude the program rounds to the nearest double and does not give the integer back.
- `d3.extent` is specified by the `Domain.Extent` function rather than modelled from the library's code.
- Country-name normalisation, cumulative sums, the choropleth map and the year-stepping animator are not part of script.js. They are not part of this model.
