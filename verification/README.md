# go-geocoding: DMS conversion and address pipeline, in Dafny

go-geocoding reads postal addresses from the first field of each CSV record,
geocodes each address with a remote service and writes one line per address:
the address, then its latitude and longitude in degrees-minutes-seconds (DMS).
The program runs two goroutines joined by a channel. `enqueue` reads records
and pushes addresses onto the queue. `putGeocode` takes addresses off the
queue, calls `geocode`, formats the result with `convert` and writes the line.

This project models the sequential logic inside that program:

- `numerals.dfy` (module `Numerals`): decimal text of integers, as `%d` prints
  it, together with the reading functions that invert it.
- `coordinates.dfy` (module `Coordinates`): `convert`.
  - Truncation toward zero (`math.Trunc`) is defined from `Floor`.
  - The degree/minute/second decomposition works over exact `real`s.
  - `%3.1f` becomes rounding to the nearest tenth, ties to even. The seconds
    are printed as a sign and a count of tenths.
  - The model keeps the source's behaviour exactly: there is no floor for
    negative inputs, and rounded seconds are never carried into the minute.
  - A reader for the `D°M'S.s"` text recovers the printed degree, minute,
    seconds sign and tenths, which shows what the text denotes.
- `output_record.dfy` (module `OutputRecord`): the line `putGeocode` writes,
  and a parser that reads such a line back.
- `pipeline.dfy` (module `Pipeline`): the first-result selection of `geocode`,
  plus the loops of `enqueue` and `putGeocode`.
  - Each loop has two forms: a recursive specification function, and a
    `while` loop method proved equal to it.
  - The CSV reader becomes the sequence of outcomes its `Read` calls return.
    An outcome past the end of that sequence counts as end of input.
  - The geocoding service becomes a function from the call number and the
    address to the response of that call. Two lookups of the same address
    can therefore be answered differently.
  - `putGeocode` records which addresses it looked up, which makes "no later
    address is looked up" something the model can state.

Rounding in `%3.1f`: Go rounds the exact value of the float to one decimal
digit, and an exact tie goes to the even digit. The model applies that rule
to the exact real value. The sign is printed when the seconds value is
negative. Under IEEE arithmetic the seconds are never −0, because `x - x`
gives +0, so a seconds value that prints as `-0.0` comes only from a small
negative value. The width 3 never pads, because the shortest rendering, `0.0`,
already has three characters.

Negative inputs: every non-zero component is negative, and a zero component
prints as `0` with no sign. For example, `convert(-35.681298)` prints
`-35°-40'-52.7"` (`ConvertNegative`) and `convert(-35.0)` prints `-35°0'0.0"`
(`ConvertWholeNegative`). For −1 < n < 0 the degree truncates to zero and
prints as `0` with no sign, so just west of Greenwich `convert(-0.5)` prints
`0°-30'0.0"` (`ConvertSmallNegative`).

## Model

| member | source | states |
|---|---|---|
| `Numerals.NatText` | main.go:145 | The `%d` text of a non-negative number is a non-empty run of digits with no leading zero, and reading it back gives the number. |
| `Numerals.IntText` | main.go:145 | The `%d` text has a leading minus exactly when the value is negative, is digits otherwise, and reads back to the value. |
| `Numerals.ParseIntOfIntText` | main.go:145 | Reading the `%d` text of any integer (an optional minus, then digits) gives back that integer. |
| `Coordinates.Trunc` | main.go:138 | Truncation toward zero: `t ≤ x < t+1` for `x ≥ 0`, and `t−1 < x ≤ t` for `x < 0`. |
| `Coordinates.TruncNegate` | main.go:138 | Truncation commutes with negation. |
| `Coordinates.Decompose` | main.go:137-144 | Under exact arithmetic, `degree + minute/60 + second/3600 == n`. |
| `Coordinates.DecomposeNonNegative` | main.go:138-144 | For `n ≥ 0`: `degree ≥ 0`, `minute` is an integer in [0,60), and the unrounded `second` is in [0,60). |
| `Coordinates.DecomposeNegative` | main.go:138-144 | For `n < 0` no floor is applied: the negated components are in range, so degree, minute and second are all ≤ 0, and minute and second are > −60. |
| `Coordinates.DecomposeNegate` | main.go:138-144 | `Decompose(-n)` negates every component of `Decompose(n)`. |
| `Coordinates.DecomposeUnique` | main.go:138-144 | Any components with one sign, minute and second in range, that reconstruct `n` are exactly the ones returned. So degree is `n` truncated, and minute is `(n − degree)·60` truncated. |
| `Coordinates.RoundHalfEven` | main.go:145 | The result is within 1/2 of the input, and an exact tie gives an even result. |
| `Coordinates.Render` | main.go:141-145 | The printed degree and minute are the decomposition's. The seconds print a minus exactly when the second is negative, and the printed tenths are within 1/2 of `10·|second|`. |
| `Coordinates.RenderSecondsBound` | main.go:144-145 | For `n ≥ 0` the printed seconds are non-negative and at most 60.0 (600 tenths). |
| `Coordinates.SecondsText` | main.go:145 | The seconds text holds no comma and no line break. What it denotes is stated by `SecondsTextReadsBack`. |
| `Coordinates.Text` | main.go:145 | The DMS text holds no comma and no line break. What it denotes is stated by `TextReadsBack`. |
| `Coordinates.Convert` | main.go:137-146 | `convert` never produces a comma or a line break, the two separators of the output line. What it denotes is stated by `ConvertReadsBack`. |
| `Coordinates.SecondsTextReadsBack` | main.go:145 | The `%3.1f` seconds text is an optional minus, at least one digit, a point and exactly one digit, and reads back to the printed sign and tenths. |
| `Coordinates.TextReadsBack` | main.go:145 | Splitting the DMS text at its first `°` and the next `'` recovers exactly the printed degree, minute, seconds sign and tenths. |
| `Coordinates.ConvertReadsBack` | main.go:137-146 | For every input, the text `convert` prints reads back to `Render(n)`: the truncated degree and minute and the rounded seconds. |
| `Coordinates.RenderSmallNegative` | main.go:138-145 | For −1 < n < 0 the printed degree is 0, which `%d` prints with no sign, and the minute is ≤ 0. |
| `Coordinates.ConvertSmallNegative` | main.go:138-145 | `convert(-0.5)` is `0°-30'0.0"`: the degree has no sign, and the zero seconds have none either. |
| `Coordinates.ConvertWholeNegative` | main.go:138-145 | `convert(-35.0)` is `-35°0'0.0"`: the zero minute and seconds have no sign. |
| `Coordinates.ConvertTokyoLatitude` | main_test.go:12 | `convert(35.681298)` is `35°40'52.7"`. |
| `Coordinates.ConvertTokyoLongitude` | main_test.go:13 | `convert(139.766247)` is `139°45'58.5"`. |
| `Coordinates.ConvertNoCarry` | main.go:144-145 | Seconds that round up to 60.0 are printed as `60.0` with the minute unchanged: `convert(35.01666)` is `35°0'60.0"`. |
| `Coordinates.ConvertNegative` | main.go:138-145 | `convert(-35.681298)` is `-35°-40'-52.7"`: no component is zero, so each prints a minus. |
| `OutputRecord.Line` | main.go:128 | The line starts with the address and a comma, ends with `E\n`, and is 5 characters longer than the address plus both DMS texts. |
| `OutputRecord.LastComma` | main.go:128 | The result is the index of the last comma, or −1 when there is none. |
| `OutputRecord.ParseLineOfLine` | main.go:128 | Every written line splits back into exactly the address, `convert(lat)` and `convert(lng)`. This holds even when the address contains commas. |
| `Pipeline.Geocode` | main.go:172-173 | The result is the first entry's location when the response decoded with at least one result. It is an error otherwise, and `NoResults` when the list is empty. |
| `Pipeline.GeocodeAsWritten` | main.go:172-173 | As written: defined only when `Results[0]` is in bounds, and then it is the first entry's location. |
| `Pipeline.EmptyResultsOutOfBounds` | main.go:172 | An empty result list puts `Results[0]` out of bounds. The guarded version reports `NoResults`. |
| `Pipeline.GeocodeAgrees` | main.go:172-173 | Wherever the code as written is defined, the guarded version returns the same result. |
| `Pipeline.EnqueueSpecProperties` | main.go:103-119 | Pushes `records[0]` of each record in file order, up to the first non-record. Closes the queue and succeeds exactly at end of input. At a read error it returns `ReadFailed` and does not close the queue. |
| `Pipeline.Enqueue` | main.go:99-120 | The loop pushes, closes and returns exactly what `EnqueueSpec` describes. |
| `Pipeline.EnqueueConcat` | main.go:103-117 | Outcomes after the one that stops the loop are never read. A prefix made only of records pushes its addresses ahead of the rest. |
| `Pipeline.OutputTextSnoc` | main.go:128 | Writing one more entry appends exactly its line to the output. |
| `Pipeline.OutputTextConcat` | main.go:123-129 | The output of a sequence of entries is the concatenation of their lines, in order. |
| `Pipeline.PutGeocodeSpecProperties` | main.go:122-133 | Addresses are looked up one at a time in queue order, the `i`-th by the `i`-th call of the service, and each resolved address gets exactly one entry (its first result), in order. At the first failed lookup the error `DecodeFailed(cause)` is returned, no later address is looked up, and the output is not synced. The output is synced exactly when every address resolved. |
| `Pipeline.PutGeocode` | main.go:122-133 | The loop writes, looks up, syncs and returns exactly what `PutGeocodeSpec` describes. Its output text is the line of each resolved address, in order. |
| `Pipeline.PutGeocodeOnlyLooked` | main.go:123-127 | The run depends on the geocoder only at the calls it made: any service that gives those calls the same answers gives the same run. |
| `Pipeline.RepeatedAddressCanFail` | main.go:123-127 | Each iteration makes its own call. An address queued twice can resolve on the first call and fail on the second; its first line is written and the run then aborts. |
| `Pipeline.PutGeocodeAllResolve` | main.go:123-131 | When every call resolves, the loop runs to the end of the queue and completes. |
| `Pipeline.PutGeocodeConcat` | main.go:123-129 | If the first part of the queue resolves fully, its entries come ahead of those of the rest, whose calls continue the count. If it fails, the rest is never looked up. |
| `Pipeline.EndToEnd` | main.go:82-90 | When the reader reaches end of input and every address resolves, there is exactly one entry per record, in file order. Each entry holds the record's first field and the first result of the call that looked it up (call `i` for record `i`). |

## Left out

- Flag parsing, the usage message and `main` (main.go:18-31) are command-line plumbing. `run`'s error is printed but does not change the exit code.
- Opening, creating and closing files, and falling back to standard output (main.go:62-79), are operating-system I/O. The output file is modelled as the text written to it, and `Sync` as the `synced` flag.
- The errgroup, the channel's capacity of 1000, backpressure and `ctx` cancellation (main.go:81-94, main.go:112-116) are left out. They exist for concurrency; the two loops are modelled one after the other over the queue's contents. This also leaves out two behaviours. First, `enqueue` returns `ctx.Err()` when cancelled. Second, when `enqueue` fails, the queue is never closed, and `range q` (main.go:123) does not observe `ctx`, so `putGeocode` can block forever.
- Building the HTTP request, encoding the query, `Client.Do` and JSON decoding (main.go:148-170) are calls to the network and to libraries. Each failure among them becomes the single response `TransportFailed`.
- The `encoding/csv` parser with `LazyQuotes` (main.go:100-104) is a library. Its results are given as a sequence of `Record`, `ReadError` and `EndOfFile` outcomes, and a record always has at least one field.
- Text is modelled as sequences of characters, while Go writes bytes. `°` is two bytes in UTF-8, so `Line`'s length counts characters, not bytes. Nothing in the model depends on the difference, because `,` and the line break never occur inside a multi-byte UTF-8 or Shift-JIS character.
- Error messages (`fmt.Errorf` texts) are modelled as the constructors `ReadFailed(file)` and `DecodeFailed(cause)`, not as strings.
- float64: the exact binary value of the input, rounding error in the products, and the range limits of `int(degree)` are not modelled. Arithmetic is exact over `real`. The concrete conversion lemmas use the tested inputs (and one chosen input for 60.0), whose results lie far from any rounding boundary.

## Findings

| source | as written | input that shows it | evidently intended | confidence | as-written member | corrected member |
|---|---|---|---|---|---|---|
| main.go:172 | `geo.Results[0]` is read with no check that the list is non-empty | a decoded response with an empty `results` list, as the service sends for an address it cannot resolve | report a lookup error for that address, as every other lookup failure does | high; not executed | `Pipeline.GeocodeAsWritten`, `Pipeline.EmptyResultsOutOfBounds` | `Pipeline.Geocode`, `Pipeline.GeocodeAgrees` |
