# generate-events.js, modelled in Dafny

`generate-events.js` fetches a GeoJSON-like feed of parkrun events and writes
one static HTML page per event into `./events`. A run does the following:

- It checks that the payload has the shape `data.events.features`.
- It keeps the first `MAX_EVENTS` (10) features.
- For each feature in order, it turns `properties.eventname` into a slug, renders
  the page and writes `<slug>.html`.
- The first error thrown anywhere ends the run. The `catch` logs the error, and
  the pages already written stay on disk.

This project models that pipeline as pure functions and proves properties of
it. It has these modules:

- `Wrappers`: `Option` and `Result`, the values a model function returns in
  place of a thrown error.
- `Feed`: the parsed payload, the feature, its `properties` and `geometry`, and
  `Fault`, which lists every error that ends a run.
- `Slug`: `slugify`, made of three steps. The steps are `toLowerCase`, the
  replacement of every maximal `\s` run by `-`, and the deletion of every
  character outside `[a-z0-9-]`. A one-pass scan serves as its reference
  definition.
- `SlugExamples`: worked examples of `slugify`.
- `Uri`: `encodeURIComponent` as section 19.2.6.5 of ECMA-262 defines it. It
  keeps the unreserved characters and writes every other code point as its
  UTF-8 bytes in `%XX` form. A decoder serves as its partner for the round trip.
- `Page`: `generateHtml`. It covers the field extraction with its fallbacks (`|| ''`,
  `|| []`, `|| 0`) and the page. The page is modelled as the template's constant
  fragments around its three interpolations: the name in the title, latitude and
  longitude in the hotel widget URL, and the encoded location in the directions
  link.
- `Pipeline`: `main`. It covers the shape check, the batch cap and the write
  loop. The loop is a fold over a `map<string, string>` from file name to
  content, and a back-to-front reference definition of the writes is its
  partner. The run's report is also modelled.

`slugify` neither collapses repeated hyphens nor trims leading or trailing
ones, so `"a - b"` becomes `"a---b"`. `Slug.SlugifyHyphens` gives the exact
count: the slug has one hyphen per hyphen of the name plus one per whitespace
run. Only the nested shape `data.events.features` is accepted.

Colliding slugs are not disambiguated, so the last page written wins. Files
already in the directory are overwritten or kept, and never pruned.

## Model

| member | source | states |
|---|---|---|
| `Slug.Slugify` | generate-events.js:33-35 | every character of a slug is in `[a-z0-9-]`, so a slug holds no whitespace |
| `Slug.LowerChar` | generate-events.js:34 | lower-casing one character gives one or two characters; whitespace stays itself and nothing else becomes whitespace |
| `Slug.ReplaceSpaceRuns` | generate-events.js:34 | after the `\s+` replacement no whitespace is left and the text is no longer |
| `Slug.KeepSlugChars` | generate-events.js:34 | after the deletion step only `[a-z0-9-]` is left and the text is no longer |
| `Slug.SlugifyIsScan` | generate-events.js:34 | the three steps equal one left-to-right scan: each maximal whitespace run becomes one `-`, every other character becomes its lower-case letter, digit or hyphen, or nothing |
| `Slug.StepsFixSlugs` | generate-events.js:34 | each of the three steps leaves a slug unchanged |
| `Slug.SlugifyIdempotent` | generate-events.js:34 | slugifying a slug gives the same slug |
| `Slug.SlugifyFixedPoints` | generate-events.js:34 | a string is its own slug exactly when it only holds `[a-z0-9-]` |
| `Slug.SlugifyLength` | generate-events.js:34 | a slug is never longer than the name |
| `Slug.SlugifyHyphens` | generate-events.js:34 | the slug has one hyphen per hyphen of the name plus one per maximal whitespace run, so no hyphen is collapsed or trimmed |
| `Slug.SlugifyKeepsLettersAndDigits` | generate-events.js:34 | the letters and digits of the slug are those of the name, lower-cased, in their original order |
| `Slug.DropsOtherCharacters` | generate-events.js:34 | a character that is neither whitespace nor mapped into `[a-z0-9-]` leaves no trace in the slug, unless removing it would merge two whitespace runs |
| `SlugExamples.BushyPark` | generate-events.js:34 | `"Bushy Park"` gives `"bushy-park"` |
| `SlugExamples.StJamessPark` | generate-events.js:34 | `"St. James's Park!"` gives `"st-jamess-park"` |
| `SlugExamples.SpacedHyphen` | generate-events.js:34 | `"a - b"` gives `"a---b"` |
| `Uri.EncodeChar` | generate-events.js:172 | an unreserved character is kept, and any other character becomes a `%` escape |
| `Uri.DecodeEncode` | generate-events.js:172 | decoding the output of `encodeURIComponent` gives back the input, for every string |
| `Uri.EncodeInjective` | generate-events.js:172 | two different locations never encode to the same text |
| `Uri.EncodeIdentity` | generate-events.js:172 | a string is left unchanged exactly when all its characters are unreserved |
| `Uri.EncodeLength` | generate-events.js:172 | every reserved character adds at least two characters to the output |
| `Uri.EncodeAlphabet` | generate-events.js:172 | the output holds only unreserved characters and `%` |
| `Page.Extract` | generate-events.js:38-45 | an absent `properties` throws first and an absent `geometry` next; otherwise the name is the feature's `eventname` |
| `Page.FieldFallbacks` | generate-events.js:40-45 | absent location, long name and short name read as `''`; absent coordinates and absent or falsy slots read as `0`; a truthy slot is taken as it is |
| `Page.CoordinateOrder` | generate-events.js:44-45 | latitude is read from index 1 and longitude from index 0, so swapping the first two coordinates swaps them |
| `Page.NamesIgnored` | generate-events.js:40-41 | `EventLongName` and `EventShortName` have no effect on the page |
| `Page.GenerateHtml` | generate-events.js:38-45 | a page is produced exactly when `properties` and `geometry` are present, and the error otherwise is the one the source throws first |
| `Page.RenderShowsFields` | generate-events.js:47-190 | the page holds the title with the name, `lat=<latitude>&lng=<longitude>&zoom=13&partnerId=parkrun"`, and the directions URL with the encoded location and its closing quote |
| `Page.PageShowsFields` | generate-events.js:38-191 | for a feature, the page shows the coordinates read from index 1 and 0 and the encoded location with its fallback |
| `Page.PageDeterminesLocation` | generate-events.js:172 | two events that differ only in location render different pages |
| `Page.LocationStaysInAttribute` | generate-events.js:172 | the encoded location holds no quote, angle bracket, ampersand or space, so it cannot leave the `href` attribute |
| `Pipeline.SelectBatch` | generate-events.js:198-202 | a payload without `events` or `events.features` is rejected with the structure error; otherwise the batch is exactly the first `min(N, 10)` of the `N` features: all of them when there are 10 or fewer, and exactly 10 otherwise |
| `Pipeline.FileNames` | generate-events.js:206 | different slugs give different file names, and a slug's file name holds no `/` and is not `.` or `..` |
| `Pipeline.WriteOf` | generate-events.js:204-207 | the loop body succeeds exactly for features with `properties`, `eventname` and `geometry`, writes the page to `<slug>.html`, and otherwise throws the error for the first missing field it reads |
| `Pipeline.FirstFault` | generate-events.js:204-211 | the features before the returned index are all writable and the one at it is not |
| `Pipeline.WriteAllStops` | generate-events.js:204-216 | the loop performs exactly the writes of the features before the first faulty one, in order, and reports that feature's error |
| `Pipeline.ApplyCons` | generate-events.js:204-211 | performing one write and then a list of writes gives the same directory as performing the list extended at the front, so the loop's front-to-back order and the back-to-front reference definition agree |
| `Pipeline.LastWins` | generate-events.js:209 | a file written several times holds the last content written to it, and a file that is never written keeps its earlier content |
| `Pipeline.LastFeatureWins` | generate-events.js:204-211 | when no later feature of the batch writes the same file, a feature's page is what its file holds, so among features whose slugs collide the last one wins |
| `Pipeline.ApplyDomain` | generate-events.js:204-211 | afterwards the directory holds exactly its earlier files plus the files written |
| `Pipeline.Names` | generate-events.js:213 | there are never more distinct files than writes |
| `Pipeline.Run` | generate-events.js:193-217 | a failed fetch writes nothing and reports the fetch error; a success report never counts more than 10 |
| `Pipeline.BadShapeWritesNothing` | generate-events.js:198-200 | a payload without `events.features` fails before any page is written |
| `Pipeline.RunFiles` | generate-events.js:193-217 | on a well-shaped payload, the run writes the pages of the batch up to its first faulty feature, in order, over the existing directory, and nothing else |
| `Pipeline.RunReport` | generate-events.js:202-216 | the success line appears exactly when no feature of the batch is faulty, and its count is then the batch size, which is at least the number of distinct files; otherwise the first faulty feature's error is reported |

## Left out

- Network and parsing. `fetchJson` and `https.get` (lines 15-30) are left out: the parsed payload is a parameter of `Pipeline.Run`, and `None` stands for a rejected request or a failed `JSON.parse`.
- Directory setup. `fs.existsSync` and `fs.mkdirSync` (lines 10-12) are left out: the output directory exists and is the map passed in.
- File paths. `path.join` (line 206) is left out: files are keyed by their name inside the output directory.
- Writes. The `'utf-8'` encoding of `fs.writeFileSync` is not modelled: the written content is the page as a string.
- Failed writes. The model assumes `fs.writeFileSync` (line 209) never throws. In the source a failed write (a name too long for the file system, a permission error, a full disk) ends the loop through the same `catch` (lines 214-216), and the pages written before it stay. In the model every write of a writable feature succeeds, and only a missing field ends the loop early.
- Logging. `console.log` and `console.error` (lines 195, 210, 213, 215) are not modelled. The `Report` stands for the last line logged.
- JavaScript values of other types. A payload that parses to `null`, an `eventname` that is not a string, a `null` feature, and `features` or `coordinates` that are not arrays are not modelled. A present field is a string, and a present coordinate list is a list.
- Number formatting. A coordinate is an abstract `Num`: its printed form and whether it is falsy. Number-to-string conversion of floating-point values is not modelled.
- Template markup. The CSS and markup of the template (lines 47-190) are a `Template` of opaque fragments. Only the literal text next to each interpolation is spelled out.
- Slug.LowerChar: only the `toLowerCase` mappings that lead to `[a-z0-9-]` are spelled out: A-Z, U+0130 and U+212A. Every other character is kept as it is instead of taking its Unicode lower-case form. That form would be deleted by the last step all the same, so `Slugify` is unaffected.
- Lone surrogates. Dafny characters are Unicode scalar values, so the `URIError` that `encodeURIComponent` throws for a lone surrogate cannot arise in the model.
- The decoder in `Uri` exists only as the partner of the encoder. It rejects any text that is not a well-formed escape of a scalar value, as the round trip needs. It does not model `decodeURIComponent` in full.
