# Music album catalog: a Dafny model

This project models the logic of a browser-based catalog of music albums.
The user adds albums and their tracks through prompts, searches the loaded
albums by numeric code and sorts them by total duration. Each album is
shown as a card with its tracks, the total duration, the longest track and
a highlight on long tracks. The model keeps the parts of `scripts/index.js`
that compute something and drops the browser plumbing around them.

- `wrappers.dfy`, module `Wrappers`: the `Option` type. It stands for "not
  found" and for a prompt answer that does not parse (`NaN`).
- `clock.dfy`, module `Clock`: the `tiempo` formatter. It turns seconds
  into `HH:MM:SS` and is written with the JavaScript operations it uses:
  `Math.floor` of a quotient, the truncating `%`, `Number#toString` on
  integers and `String#padStart`. It also has a reader that turns such a
  text back into seconds, so the round trip can be stated.
- `albums.dfy`, module `Albums`: `Pista` (`Track`) and `Album`, plus
  `agregarPista`, `duracionTotal` (the `reduce` fold), `pistaMasLarga` (its
  loop, strict `>`, first track wins ties), the `> 180` highlight rule and
  the content of a card (`toHTML` without the markup).
- `catalogs.dfy`, module `Catalogs`: the list of loaded albums
  (`discoscargados`). It covers the append, lookup by code (`find`), the
  acceptance tests of `pedirCodigo` and `pedirDuracion`, and `cargar` from
  the point where every value has been accepted.
- `sorting.dfy`, module `Sorting`: `ordenarDiscos`. It is a stable sort by
  total duration, ascending for `'asc'`, descending for `'desc'`, and leaves
  the list alone for any other value. A stable sort is characterised by
  three facts: the result is a permutation, it is sorted, and for every
  total the albums with that total keep their earlier order. The module
  proves that these three facts fix the result uniquely.

The source mutates the global list and the album in place. The model
returns new values instead. The prompts, alerts and the `confirm` loop
become inputs: an accepted code, a non-empty sequence of tracks with
accepted durations, and the album's text fields.

## Model

| member | source | states |
|---|---|---|
| Clock.JsRem | scripts/index.js:36-37 | JavaScript `%` with a positive divisor: a − r is a multiple of b, and r is in 0..b-1 for a non-negative dividend, in -(b-1)..0 for a negative one, which fixes r as the truncating remainder |
| Clock.FloorDiv | scripts/index.js:35-36 | `Math.floor(a / b)` for a positive divisor: the largest q with q·b ≤ a, also for negative a |
| Clock.Decompose | scripts/index.js:35-37 | for s ≥ 0: hours ≥ 0, 0 ≤ minutes < 60, 0 ≤ seconds < 60, and hours·3600 + minutes·60 + seconds = s; hours are not wrapped at 24 |
| Clock.DecomposeUnique | scripts/index.js:35-37 | every split of s ≥ 0 into h, m, x with m and x below 60 is the one `tiempo` computes |
| Clock.NatToString | scripts/index.js:38 | `toString` of a natural number: one or more decimal digits, no leading zero, one digit below 10, at most two below 100 |
| Clock.NatToStringValue | scripts/index.js:38 | the digits `toString` prints read back as the number |
| Clock.IntToString | scripts/index.js:38 | `toString` of an integer: digits that read back as the number when it is non-negative (one below 10, at most two below 100, at least two from 10); for a negative number a minus sign followed by digits that read back as its absolute value; no leading zero for a non-zero number, also after the minus sign |
| Clock.PadStart | scripts/index.js:38 | `padStart(width, fill)`: the result is max(length, width) long, ends with the input and is filled with `fill` before it |
| Clock.Field | scripts/index.js:38 | `toString().padStart(2, '0')`: at least two characters; for n ≥ 0 digits that read back as n, exactly two when n < 100, a leading zero exactly when n < 10; for n < 0 a minus sign followed by the digits of −n with no leading zero |
| Clock.FormatTime | scripts/index.js:34-39 | the clock text is at least eight characters long |
| Clock.FormatTimeRoundTrip | scripts/index.js:34-39 | for s ≥ 0, reading the printed `HH:MM:SS` back (minutes and seconds exactly two digits and below 60, hours at least two digits) gives s |
| Clock.FormatTimeInjective | scripts/index.js:34-39 | two different non-negative second counts never print the same text |
| Clock.FormatTimeExampleOneHour | scripts/index.js:34-39 | 3661 seconds print as `01:01:01` |
| Clock.FormatTimeExampleHundredHours | scripts/index.js:34-39 | 360000 seconds print as `100:00:00`, three hour digits and no padding zero |
| Clock.FormatTimeExampleUnwrapped | scripts/index.js:34-39 | 90000 seconds print as `25:00:00`, with hours past 24 |
| Albums.Sum | scripts/index.js:16-18 | the total of an album with no tracks is 0 |
| Albums.TotalDuration | scripts/index.js:16-18 | the total of an album with no tracks is 0, and with no negative durations it is ≥ 0 |
| Albums.SumBounds | scripts/index.js:16-18 | with no negative durations the total is ≥ 0 and ≥ each duration; with durations ≤ 7200 it is ≤ 7200 per track |
| Albums.SumConcat | scripts/index.js:16-18 | the total of two track lists put together is the sum of their totals |
| Albums.SumPermutation | scripts/index.js:16-18 | the total is the same for any reordering of the tracks |
| Albums.AddTrack | scripts/index.js:12-14 | one more track, the earlier tracks unchanged, the new track last, the other fields unchanged, and the total grows by exactly its duration |
| Albums.ScanLongest | scripts/index.js:21-25 | the loop, replacing the held track only with a strictly longer one, ends at the first position of a longest track |
| Albums.LongestIndex | scripts/index.js:19-27 | starting from the first track, the picked position holds a longest track and every earlier track is strictly shorter |
| Albums.LongestTrack | scripts/index.js:19-27 | for a non-empty album the result is one of its tracks, no track is longer, and it sits at the first longest position |
| Albums.FirstLongestUnique | scripts/index.js:19-27 | only one position is the first longest, so the rule fixes the result |
| Albums.LongestTieGoesFirst | scripts/index.js:22 | of two equally long tracks the later one is never picked |
| Albums.Line | scripts/index.js:53-55 | a card line carries the track's name and duration and is highlighted exactly when the duration exceeds 180 seconds |
| Albums.TrackLines | scripts/index.js:52-56 | one line per track, in track order, each the line of the track at that position |
| Albums.LineText | scripts/index.js:53-55 | for a non-negative duration the printed line starts with the track's name and ` - `, and the rest reads back as the duration |
| Albums.HighlightedIffLongest | scripts/index.js:54 | some track of a non-empty album is highlighted exactly when its longest track is |
| Albums.TotalReadsBack | scripts/index.js:60 | with no negative durations the printed total of an album reads back as its total |
| Albums.Render | scripts/index.js:41-66 | for an album with tracks: the card keeps its fields, its lines are the track lines in order with the highlight rule, its total is the printed total duration (reading back as the total when no duration is negative), and its longest track is the first longest |
| Catalogs.FindFrom | scripts/index.js:106 | the scan returns the first position from the start with the code, or none when no album has it |
| Catalogs.FirstMatchUnique | scripts/index.js:106 | there is only one first position with a given code |
| Catalogs.FindByCode | scripts/index.js:106 | `None` exactly when no loaded album has the code; otherwise the album at the first position with that code |
| Catalogs.FindParsed | scripts/index.js:105-106 | a `NaN` query finds nothing; a numeric query finds nothing exactly when no album has that code, otherwise an album at the first position with it |
| Catalogs.FindUnderDistinctCodes | scripts/index.js:106 | while codes are distinct, looking up an album's code returns that album |
| Catalogs.FindAfterAppend | scripts/index.js:92 | after an append, lookup finds the earlier album when there is one, else the new album if its code matches, else nothing |
| Catalogs.Add | scripts/index.js:92 | the list grows by the album at the end; lookups of other codes are unchanged and a new code finds the new album |
| Catalogs.CheckCode | scripts/index.js:129-141 | a parsed code is accepted exactly when it is in 1..999 and lookup finds no album with it; it is refused as taken exactly when it is in range and lookup finds one |
| Catalogs.CheckDuration | scripts/index.js:143-153 | a parsed duration is accepted exactly when it is in 0..7200; it is never refused as taken |
| Catalogs.AddAcceptedKeepsDistinct | scripts/index.js:129-141 | appending an album whose code the code prompt accepted keeps all loaded codes distinct |
| Catalogs.Load | scripts/index.js:79-92 | the album built from the accepted fields holds exactly the given tracks in order and is appended last; codes stay distinct, lookup of its code finds it, and its total is between 0 and 7200 per track |
| Sorting.Insert | scripts/index.js:183 | inserting adds exactly one copy of the album to the list's contents |
| Sorting.SortBy | scripts/index.js:183-185 | the sorted list is a permutation of the list |
| Sorting.InsertFilter | scripts/index.js:183-185 | inserting places the album before the albums with its own total and keeps their order |
| Sorting.InsertSorted | scripts/index.js:183-185 | inserting into a sorted list keeps it sorted |
| Sorting.SortByIsStable | scripts/index.js:181-186 | the sort is a permutation, sorted by total, and albums with equal totals keep their earlier relative order |
| Sorting.SortedWithSameFiltersEqual | scripts/index.js:181-186 | two lists sorted the same way with the same albums in the same order for every total are equal, so the stable sort is unique |
| Sorting.SortCatalog | scripts/index.js:181-186 | `'asc'` gives a stable ascending sort, `'desc'` a stable descending sort, any other value the list unchanged |
| Sorting.SortCatalogUnique | scripts/index.js:181-186 | for `'asc'` or `'desc'`, every stable sort of the list in that order is the result |
| Sorting.ResortForgetsPriorSort | scripts/index.js:181-186 | sorting an already sorted list gives the same result as sorting the original; sorting twice in one order changes nothing |
| Sorting.DescendingReversesAscending | scripts/index.js:183-185 | when no two albums share a total, the descending order is exactly the reverse of the ascending order |
| Sorting.SortCatalogKeepsDistinct | scripts/index.js:181-186 | sorting keeps the loaded codes distinct |

## Left out

- The `prompt`/`alert`/`confirm` retry loops of `pedirDato`, `pedirCodigo`,
  `pedirDuracion` and `cargar` are interactive I/O and are not modelled.
  Only their acceptance tests are modelled, and accepted values are inputs.
  The `confirm` loop becomes a given non-empty sequence of tracks, because
  its `do … while` runs at least once.
- `parseInt` of the prompt text is not modelled. The tests take the parsed
  value as `Option<int>`, where `None` is `NaN`. JavaScript's parsing rules
  (leading whitespace, sign, a `0x` prefix, stopping at the first non-digit)
  are left out. In `buscar_id` a `NaN` query matches no album, which
  `Catalogs.FindParsed` states.
- `pedirDato` trims the answer and refuses an empty one. It is left out
  because `String#trim` removes a Unicode-defined set of white space. The
  model takes the text fields as given.
- The DOM is not modelled: `mostrar`, `ContadorDiscos`, the `innerHTML`
  writes in `buscar_id`, the `change` listener and the HTML markup of
  `toHTML`. Only the content of a card is modelled.
- `duracionPromedio` and the average line of the card are left out, because
  they use floating-point division, `toFixed(2)` and `parseFloat`. They also
  pass a non-integer into `tiempo`, and the formatter is modelled on
  integers only.
- `Cargar_json` is asynchronous network I/O and is left out. Its in-memory
  part pushes every record without checking codes, so the distinct-codes
  invariant does not survive it. The code has no merge that skips taken
  codes, and the model adds none.
- `cargar` calls `actualizarContadorDiscos()` after the append. No function
  of that name exists in the file; the counter function is `ContadorDiscos`.
  The model of `cargar` (`Catalogs.Load`) ends at the append.
- `toHTML` asks for the longest track even for an album with no tracks,
  where `pistas[0]` is undefined and reading its fields throws. This is
  modelled as the precondition of `Albums.LongestTrack` and
  `Albums.Render`, not as behaviour.
- Durations are integers. Non-numeric or fractional durations, which only
  the JSON data could carry, are not modelled.
- JavaScript numbers are IEEE doubles, and the model uses unbounded integers.
  From 10^21 up, `toString` prints exponent form (`1e+21`), and the `reduce`
  sum stops being exact past 2^53. The model has neither effect. It cannot
  happen on the manual path, where durations are at most 7200 seconds; only
  the JSON data could reach such values.
- Clock.FormatTime: for negative inputs the model computes the fields as
  JavaScript does, but no property is stated about that output. The round
  trip and the field bounds are stated for non-negative inputs only.
- `Array.prototype.sort` is specified as stable since ECMAScript 2019. The
  model relies on that: the insertion sort is one stable sort, and
  `Sorting.SortCatalogUnique` shows every stable sort gives the same list.
