# Salary statistics console program, modelled in Dafny

The program asks for a number of salaries (at least 2), reads that many
non-negative integer salaries, shows their median, average and dispersion
(max − min), lists the salaries three to a row, and starts another round
unless the user presses Escape.

The model has four modules:

- `CSharpInt` (`csharp_int.dfy`): the C# `int` type as the subset type
  `Int32`, unchecked 32-bit wrap-around (`Wrap`), and integer division by 2,
  which truncates toward zero (`HalfTowardZero`).
- `Statistics` (`statistics.dfy`): the extension methods `Median` and
  `Dispersion`, as pure functions on a sequence of `Int32`. Also the
  ascending sort that `OrderBy` performs, and LINQ's `Max` and `Min`.
  Being functions, they cannot change their input: the source sorts a copy
  and leaves the array alone.
- `Program` (`program.dfy`): `ReadInt`, `ReadSalaries`, the listing loop of
  `ViewResult`, and the key decision of `IsContinuing`. Console input is a
  sequence of lines, and `int.TryParse` is a parameter
  `parse: string -> Option<Int32>`. Console output is returned as values:
  the rejection shown for each refused line, and the sequence of `Print`
  cells written by the presenter.
- `Wrappers` (`wrappers.dfy`): `Option`.

`ReadInt` is a retry loop that runs until a line is accepted. The model's
input is finite, so its result says either which line was accepted
(`Read`) or that every line was refused (`InputEnded`). In the second case
the real program would keep prompting forever.

## Model

| member | source | states |
|---|---|---|
| `Program.IsContinuing` | Program.cs:55-64 | the result is false exactly when the key is Escape and true for every other key |
| `Program.Classify` | Program.cs:91-106 | a line is accepted iff it parses, is ≥ 0, and for the count prompt is ≥ 2; the value is the parsed one. Each rejection kind happens under exactly one condition: unparsable; count prompt and value < 2 (so a negative count is "too small", not "negative"); salary prompt and value < 0 |
| `Program.ReadInt` | Program.cs:71-124 | returns a value iff some line is accepted. That value is the one of the first accepted line. The number of lines read ends at that line. There is exactly one rejection per earlier line, and it is that line's rejection. The value is ≥ 2 for the count prompt and ≥ 0 for a salary. If no line is accepted, every line yields one rejection |
| `Program.AcceptedSalaries` | Program.cs:91-139 | the salaries a salary prompt accepts, in input order, are all ≥ 0. There are at most as many as there are lines |
| `Program.SalaryRejections` | Program.cs:91-139 | the rejections a salary prompt shows, one per refused line, in input order; none of them is "count too small". There are at most as many as there are lines |
| `Program.AcceptedOrRejected` | Program.cs:91-139 | every line read at a salary prompt is either accepted or shown as refused: the accepted salaries and the rejections together number exactly the lines |
| `Program.ReadSalaries` | Program.cs:130-142 | returns a fresh array of length `count`. It is complete iff the input holds at least `count` accepted salaries; then slot `i` holds the i-th of them, in input order, the lines read are exactly those up to the `count`-th accepted one, and that last line read is an accepted one. Otherwise all the input is read. The rejections returned are the ones shown for the refused lines among those read, in order. Every element is ≥ 0 |
| `Program.LayoutShape` | Program.cs:179-192 | salary `i` is written at position `i + i/3`, in input order. A line break follows it exactly when `(i+1) % 3 == 0` or it is the last salary. The listing ends with one more line break, and its length is `n + n/3 + 1` |
| `Program.Layout` | Program.cs:179-192 | the listing is never empty and always ends with a line break (its full shape is `Program.LayoutShape`) |
| `Program.Header` | Program.cs:172-176 | the header holds two summary lines, the median first and the dispersion second, computed as the program does (wrapping median) |
| `Program.HeaderWithoutOverflow` | Program.cs:172-176 | when every pairwise sum of the salaries fits in an `int`, the median shown is the overflow-free one and lies between the least and the greatest salary |
| `Program.ViewResult` | Program.cs:163-193 | the output is the header (median as computed by `Statistics.Median`, dispersion) followed by the row-by-row listing `Layout`: complete rows of three, each closed by a break, then the remaining values, then a final break |
| `Program.LayoutExample` | Program.cs:179-192 | four salaries 10, 20, 30, 40 are printed as one row of three, a break, then 40 and a break |
| `Statistics.Max` | Program.cs:209 | the result is an element of the input and no element exceeds it |
| `Statistics.Min` | Program.cs:209 | the result is an element of the input and no element is below it |
| `Statistics.Dispersion` | Program.cs:206-210 | the result is max − min modulo 2^32, i.e. C# unchecked subtraction |
| `Statistics.DispersionIsRange` | Program.cs:206-210 | for non-negative values: the dispersion is exactly max − min, it is ≥ 0, and it is 0 iff all values are equal |
| `Statistics.DispersionPermutation` | Program.cs:206-210 | the dispersion does not depend on the order of the values |
| `Statistics.Middle` | Program.cs:229-246 | on a sorted copy: an odd length gives one of its elements; an even length whose two central values add up within `int` range gives their sum halved toward zero |
| `Statistics.Median` | Program.cs:216-249 | for an odd number of values the median is one of the values |
| `Statistics.SortAsc` | Program.cs:226 | the sorted copy is ascending and is a permutation of the input |
| `Statistics.SortedUnique` | Program.cs:226 | two ascending permutations of the same values are equal, so the outcome of `OrderBy` is determined by the values alone |
| `Statistics.MedianFromSorted` | Program.cs:226-248 | for any ascending arrangement `t` of the input: odd length gives `t[n/2]`; even length gives the wrapped sum `t[n/2-1] + t[n/2]` halved toward zero |
| `Statistics.MedianPermutation` | Program.cs:226 | the median (both the as-written and the corrected one) is the same for every permutation of the input |
| `Statistics.MedianWithinRange` | Program.cs:226-248 | when every pairwise sum of the input fits in an `int`, the median equals the overflow-free median and lies between min and max |
| `Statistics.MedianTruncates` | Program.cs:236 | central values 3 and 4 give median 3 |
| `Statistics.MedianOverflows` | Program.cs:236 | two salaries of 1 500 000 000 give median −647 483 648, below every salary, where the intended median is 1 500 000 000 |
| `Statistics.MedianExact` | Program.cs:216-249 | the corrected median lies between min and max of the input, for every input |
| `Statistics.MiddleExact` | Program.cs:229-246 | on a sorted copy the corrected middle lies between its first and last element, and for an even length between the two central values |
| `CSharpInt.Wrap` | Program.cs:236 | the result is an `int`, congruent to the exact value modulo 2^32, and equal to it when the exact value is in range |
| `CSharpInt.HalfTowardZero` | Program.cs:236 | the result is the exact half rounded toward zero: `2r ≤ x ≤ 2r + 1` for `x ≥ 0`, `2r − 1 ≤ x ≤ 2r` for `x < 0` |

## Left out

- Console colours, `Console.Clear`, `ViewMessage`, the field widths of
  `Write`/`WriteLine`, currency formatting and the message texts of the
  resource file. These are presentation only. A rejection is modelled by its
  kind, and the raw line is kept for a parse failure.
- The label of each salary prompt carries the salary's 1-based position.
  That is display text, so the model's `Salary` prompt does not carry it.
- `Average` (Program.cs:174): a floating-point mean shown with currency
  formatting. The header therefore holds only the median and the dispersion.
- `int.TryParse` is abstracted as the parameter `parse`. Its handling of
  whitespace, signs and culture is not modelled.
- `Main`'s `do`/`while` session loop and `Console.ReadKey`. Only the
  decision taken on the key read is modelled, by `IsContinuing`.
- Empty input to `Median`, `Dispersion`, `Max` and `Min`. C# throws on it,
  but the count is always at least 2, so these members require a non-empty
  sequence.
- `Program.ReadSalaries`: a negative `count` would make `new int[count]`
  throw. Every caller passes a validated count (≥ 2), so `count` is a `nat`.
- `Program.ReadInt`: the source never returns when no line is accepted
  (once input ends, `ReadLine` gives null, which never parses). The model
  stops at the end of its finite input and reports `InputEnded`.

## Findings

| source | as written | input that shows it | evidently intended | confidence | as-written member | corrected member |
|---|---|---|---|---|---|---|
| Program.cs:236 | `sortedArray[lowerKey] + sortedArray[higherKey]` is an unchecked 32-bit `int` addition, so it wraps before the division by 2 | two salaries of 1500000000 (both pass validation): the sum wraps to −1294967296 and the median shown is −647483648 | the median of two central values lies between them: 1500000000 here | not executed; relies on C#'s default unchecked arithmetic | `Statistics.MedianOverflows` (about `Statistics.Median`) | `Statistics.MedianExact` |
