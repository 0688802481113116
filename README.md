# Colour searcher — a verified model of its core

The colour searcher is a single React component. It loads a palette of
named colours. The user types a colour, either as `#RRGGBB` or as
`rgb(r, g, b)`, and the table then shows the 100 palette entries nearest
to it, nearest first. This project models in Dafny the logic behind that:

- the decoding of hex codes into RGB triples (`hexToRgb`);
- the recognisers for the two accepted text forms (`isHexColor`, `isRgbColor`);
- the branch of `handleClick` that turns the search text into a colour, or
  rejects it;
- the distance between two colours (`colorDistance`);
- the ranking (`filterClosestColors`): a distance for every palette entry, a
  stable sort by distance, and the first 100 entries;
- the component's state, and the handlers that change it.

The model has four modules, one file each:

- `hex_color.dfy` (`HexColor`): hex digits, `hexToRgb`, and a lower-case
  encoder. The two round trips between them are proved.
- `color_input.dfy` (`ColorInput`): the two recognisers and the parse step of
  `handleClick`. The `rgb()` regular expression is modelled as a
  deterministic matcher that returns the pieces it captured. The matcher is
  proved sound and complete against the text those pieces spell out.
- `ranking.dfy` (`Ranking`): the squared colour distance, and the ranking.
  The sort runs in place on an array. It is proved equal to a functional
  stable insertion sort. That function is proved to give a sorted
  permutation that keeps the order of entries at equal distance. The 100
  entries kept are proved to be nearest.
- `color_searcher.dfy` (`Searcher`): the component as a class. Its fields
  are the component's state variables. Its methods are the palette load,
  the search box's `onChange`, `handleClick`, and the "Show all colors"
  button.

Two points where the code may surprise a reader:

- A hex search needs the leading `#`. The regular expression
  `/^#[0-9A-F]{6}$/i` requires it, even though the `#` is stripped again
  inside `hexToRgb`.
- The distance of a palette entry is computed from its hex code
  (`hexToRgb(color.hex)`), not from its stored `rgb` column.
  `Searcher.LoadedDistancesMatchStoredRgb` shows that the two agree on a
  palette loaded by the component.

## Model

| member | source | states |
|---|---|---|
| HexColor.HexToRgb | src/ColorSearcher.jsx:15-21 | after one optional leading `#`, each channel is 16 × the first digit of its pair plus the second (pairs at offsets 0, 2 and 4), so every channel is a byte |
| HexColor.HexValue | src/ColorSearcher.jsx:17-19 | `parseInt(…, 16)` of n hexadecimal digits is below 16^n; `HexPairValue` pins its value on the two-digit slices `hexToRgb` reads |
| HexColor.HexPairValue | src/ColorSearcher.jsx:17-19 | two hex digits are worth 16 × the first plus the second |
| HexColor.StripHash | src/ColorSearcher.jsx:16 | removes at most one leading `#` and nothing else: the input is the result itself or `#` followed by it, and one character shorter exactly when it starts with `#` |
| HexColor.HashIgnored | src/ColorSearcher.jsx:16 | `replace(/^#/, "")` strips exactly one leading `#`; a `#` in front of six hex digits does not change the decoded triple |
| HexColor.NothingElseStripped | src/ColorSearcher.jsx:16 | a string that does not start with `#` is left untouched |
| HexColor.HexDigitRoundTrip | src/ColorSearcher.jsx:17-19 | encoding a digit's value gives back the digit, lower-cased |
| HexColor.RgbHexRoundTrip | src/ColorSearcher.jsx:15-21 | decoding the six-digit lower-case encoding of any byte triple gives that triple back, with or without `#` |
| HexColor.HexRgbRoundTrip | src/ColorSearcher.jsx:15-21 | six hex digits decode to a triple that encodes back to the same digits, lower-cased |
| ColorInput.IsHexColor | src/ColorSearcher.jsx:80-82 | text `isHexColor` accepts is always decodable by `hexToRgb`, and its `#` is the one `hexToRgb` strips |
| ColorInput.HexColorIff | src/ColorSearcher.jsx:80-82 | `isHexColor` accepts exactly `#` followed by the encoding of some byte triple, in any mix of letter cases |
| ColorInput.LeadingRun | src/ColorSearcher.jsx:85 | a greedy `\s*`/`\d+` run: it stays inside the class and stops at the end or at the first character outside it |
| ColorInput.MatchGroup | src/ColorSearcher.jsx:85 | scanning one component `\s*(\d+)\s*` and its separator consumes at least one character, and matching goes on with the rest of the same text |
| ColorInput.MatchGroupSound | src/ColorSearcher.jsx:85 | a scanned component `\s*(\d+)\s*` followed by its separator is well formed and spells out exactly the text it consumed |
| ColorInput.MatchGroupComplete | src/ColorSearcher.jsx:85 | every well-formed component followed by its separator is scanned with exactly its own pieces |
| ColorInput.MatchRgb | src/ColorSearcher.jsx:97-99 | every match of the `rgb()` pattern is well formed and spans the whole text |
| ColorInput.MatchRgbComplete | src/ColorSearcher.jsx:84-86 | every well-formed `rgb()` text (any letter case, whitespace around each number) is matched, with its own pieces captured |
| ColorInput.IsRgbColor | src/ColorSearcher.jsx:84-86 | text `isRgbColor` accepts is never hex text, so the order of the two tests in `handleClick` does not change the outcome |
| ColorInput.IsRgbColorIff | src/ColorSearcher.jsx:84-86 | `isRgbColor` holds exactly for the texts some well-formed match spans |
| ColorInput.DecimalValue | src/ColorSearcher.jsx:103 | `parseInt` of n decimal digits is below 10^n, the bound `MatchedRgb` passes on; `DecimalRoundTrip` and `LeadingZeroIgnored` pin its value |
| ColorInput.DecimalRoundTrip | src/ColorSearcher.jsx:103 | the numeral of n reads back as n |
| ColorInput.LeadingZeroIgnored | src/ColorSearcher.jsx:103 | a leading zero does not change the value `parseInt` reads |
| ColorInput.DecimalLowerBound | src/ColorSearcher.jsx:103 | `parseInt` of n decimal digits with no leading zero is at least 10^(n-1) |
| ColorInput.MatchedRgb | src/ColorSearcher.jsx:101-103 | the colour built from a match has each channel below 10^n for a component of n digits, and at least 10^(n-1) when the component has no leading zero, so values above 255 are kept rather than clamped |
| ColorInput.ParseInput | src/ColorSearcher.jsx:88-109 | the text yields a colour exactly when it is hex text or `rgb()` text; hex text yields a byte triple |
| ColorInput.ParseHexText | src/ColorSearcher.jsx:92-94 | `#` plus the encoding of a byte triple searches for that triple; any accepted hex text searches for the triple that encodes to it lower-cased |
| ColorInput.BareHexRejected | src/ColorSearcher.jsx:106-108 | six hex digits without `#` are rejected |
| ColorInput.ParseRgbText | src/ColorSearcher.jsx:95-104 | accepted `rgb()` text searches for the decimal values of its three captured groups |
| ColorInput.NoClamping | src/ColorSearcher.jsx:101-103 | `rgb(n,0,0)` searches for red channel n even when n exceeds 255 |
| ColorInput.NotAColorRejected | src/ColorSearcher.jsx:106-108 | text in neither form (`notacolor`) yields no colour |
| Ranking.SquaredDistance | src/ColorSearcher.jsx:119-126 | the (squared) distance is zero exactly when the two colours are equal |
| Ranking.DistanceSymmetric | src/ColorSearcher.jsx:119-126 | the distance does not depend on the order of its arguments |
| Ranking.WithDistances | src/ColorSearcher.jsx:132-138 | one entry per palette entry, in palette order, with the record unchanged; its distance is zero exactly when the colour its hex code names is the searched colour |
| Ranking.InsertPermutes | src/ColorSearcher.jsx:139 | one insertion step adds its entry and nothing else |
| Ranking.InsertKeepsSorted | src/ColorSearcher.jsx:139 | one insertion step keeps a sequence sorted by distance |
| Ranking.SortByDistance | src/ColorSearcher.jsx:139 | the sort yields a permutation of its input, sorted by distance |
| Ranking.InsertStable | src/ColorSearcher.jsx:139 | an insertion puts its entry after all entries already present at the same distance |
| Ranking.SortStable | src/ColorSearcher.jsx:139 | the sort is stable: the entries at each distance come out in their input order |
| Ranking.SortInPlace | src/ColorSearcher.jsx:139 | the in-place array sort leaves exactly the stable sort of the original contents |
| Ranking.InsertAt | src/ColorSearcher.jsx:139 | the inner loop inserts `a[i]` into the sorted prefix `a[..i]` and leaves the rest of the array unchanged |
| Ranking.FilterClosestColors | src/ColorSearcher.jsx:129-142 | returns the first min(100, palette size) entries of the stable sort by distance, sorted |
| Ranking.ClosestColors | src/ColorSearcher.jsx:129-142 | the ranking has min(100, palette size) entries, in non-decreasing distance |
| Ranking.ClosestAreUnchangedEntries | src/ColorSearcher.jsx:132-138 | each ranked entry is a palette entry with its four fields copied, and its distance is taken from its hex code |
| Ranking.ClosestAreNearest | src/ColorSearcher.jsx:139-141 | no entry left out is nearer than any entry kept |
| Ranking.SmallPaletteKeptWhole | src/ColorSearcher.jsx:141 | a palette of at most 100 entries comes back whole, each entry exactly once |
| Ranking.ClosestStable | src/ColorSearcher.jsx:139-141 | the entries kept at each distance are the first ones at that distance, in palette order |
| Searcher.Annotate | src/ColorSearcher.jsx:63-67 | each loaded entry keeps its name and hex code and gets `rgb` decoded from that hex code, a byte triple |
| Searcher.Entries | src/ColorSearcher.jsx:113-115 | the table rows after a search are the ranked palette records, in ranking order, one per ranked entry, without their distance |
| Searcher.LoadedDistancesMatchStoredRgb | src/ColorSearcher.jsx:132-137 | on a loaded palette, distances from the hex code equal distances from the stored `rgb` column |
| Searcher.ColorSearcher.constructor | src/ColorSearcher.jsx:5-10 | initial state: empty text, no search shown, empty palette and table, loading |
| Searcher.ColorSearcher.LoadPalette | src/ColorSearcher.jsx:62-70 | the annotated palette becomes both the stored palette and the table; loading ends |
| Searcher.ColorSearcher.SetColorToSearch | src/ColorSearcher.jsx:168-170 | typing replaces the search text and changes nothing else |
| Searcher.ColorSearcher.HandleClick | src/ColorSearcher.jsx:88-116 | rejected text changes nothing; accepted text marks the search as shown and shows the ranking of the stored palette against the parsed colour |
| Searcher.ColorSearcher.ShowAllColors | src/ColorSearcher.jsx:179-182 | the table shows the whole palette again and the search flag is cleared |

## Left out

- `hexToHsl` (src/ColorSearcher.jsx:24-50) works in floating point. It is not modelled. Each entry's `hsl` text is passed in as a parameter and carried along unchanged.
- The palette fetch (src/ColorSearcher.jsx:52-78) is not modelled: the network request, JSON decoding, the asynchronous effect, and the `alert` on failure. `LoadPalette` takes the decoded list as a parameter and models only the successful end of the fetch.
- The `alert("Invalid color")` and the `console.log` calls are not modelled. A rejected search is modelled as `HandleClick` returning `false` with the state unchanged.
- Rendering, the colour-picker input, and focus handling (src/ColorSearcher.jsx:144-229) are not modelled. The picker writes through the same setter as the text box.
- Ranking.SquaredDistance: omits `Math.sqrt`. The square root is monotone, so the order of the ranking is unchanged. The floating-point rounding of very large, unclamped `rgb()` components is not modelled.
- ColorInput.DecimalValue: reads any number of digits exactly. `parseInt` loses precision above 2^53 and gives `Infinity` for extremely long digit strings.
- HexColor.HexToRgb: requires six hex digits after the optional `#`. On other strings the source yields `NaN`, or whatever `parseInt` reads after skipping leading white space and an optional sign, which may be negative; the model does not cover them. Searched text meets the requirement because `isHexColor` has accepted it. Palette codes are assumed well formed: `LoadPalette` requires it, and the source does not check it.
- Characters are Unicode scalar values, not UTF-16 code units. This makes no difference to these ASCII patterns or to the `\s` class.
- Searcher.ColorSearcher.HandleClick: after a search the table rows are the ranked palette records without the `distance` property. The table never displays that property.
- Searcher.ColorSearcher.constructor: `buttonClicked` starts as `""` in the source and as `false` here. Both are falsy.
- `filterClosestColors` sorts with `Array.prototype.sort`, which is stable. The model uses a stable insertion sort, which gives the same order. The engine's actual sorting algorithm is not modelled.
