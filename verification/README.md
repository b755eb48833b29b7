# Notes → Action Items: a Dafny model of the extractor and the CSV export

The page takes pasted meeting notes and finds action items in them. It then
offers those items for download as a one-column CSV file. Two pure routines
inside the page component do the real work, and both are modelled here as
standalone functions:

- `extractActionItems` (`app/page.tsx`, lines 18-45) works as follows.
  - It splits the notes on `"\n"` and trims each line.
  - It drops empty lines.
  - It keeps a line that starts with `"- "` or `"* "`, or whose lower-cased form contains `"todo"`.
  - It removes one leading `-`/`*` marker together with the whitespace run after it (the regular expression `^[-*]\s+`).
  - It emits `{id: lineIndex, description}` in line order.
- The CSV construction in `downloadCsv` (lines 47-60) works as follows.
  - It refuses to build anything when there are no items.
  - Otherwise it joins, with `"\n"`, the header `Description` and one row per item.
  - A row is the description with every `"` doubled, between double quotes.
  - This is the quoting of section 2, rule 7, of RFC 4180. The lines are separated by LF, not by the CRLF of rule 1.

Files:

- `wrappers.dfy` (module `Wrappers`): `Option`, used for a line that yields no item, a refused export and an undecodable CSV text.
- `strings.dfy` (module `Strings`): the JavaScript string operations the page uses.
  - `trim()`, with the exact ECMAScript whitespace set. The regular-expression class `\s` uses the same set.
  - `toLowerCase()`, `includes`, `startsWith` (Dafny's prefix `<=`), and `split`/`join` on one character.
- `action_items.dfy` (module `ActionItems`): the extractor.
  - `Classify` is the per-line callback of `.map`.
  - `ClassifyAll` is the `.map` itself.
  - `Present` is the `.filter(item => item !== null)`.
  - `Extract` is the whole routine.
- `csv.dfy` (module `Csv`): the export.
  - `Escape`, `Row` and `Export` build the text.
  - An RFC 4180-style reader (`ParseQuoted`, `ParseRecords`, `Decode`) is the inverse the round-trip properties are stated against.
- `scenarios.dfy` (module `Scenarios`): concrete lines with the item each yields, proved against the model.

The comment above the routine (lines 14-17) describes the rule more loosely
than the code applies it; the model follows the code:

- The comment keeps any line that starts with "-" or "*". The code's bullet test requires a space after the marker (`startsWith("- ")`, line 27).
  - So `-milk` is dropped (`Scenarios.UnspacedBullet`).
  - `-todo` is kept for its "todo" but keeps its dash (`Scenarios.GluedMarkerKept`). The `^[-*]\s+` strip needs at least one whitespace character after the marker.
- The comment speaks of the word "TODO". The code looks for "todo" in the lower-cased line, in any letter case and also inside a longer word (line 28).
- Ids are the raw line index (line 38).

## Model

| member | source | states |
|---|---|---|
| Strings.Trim | app/page.tsx:23 | the trimmed line is the piece of the raw line that starts at the first non-whitespace character, and a non-empty result begins and ends with non-whitespace |
| Strings.TrimRemovesOnlySpace | app/page.tsx:23-24 | everything `trim` removes is whitespace, and the trimmed line is empty exactly when the raw line is whitespace only, which is the `if (!line) return null` case |
| Strings.TrimIdempotent | app/page.tsx:23 | trimming an already trimmed line changes nothing |
| Strings.Lower | app/page.tsx:28 | lower-casing keeps the length and lower-cases each character on its own |
| Strings.LowerKeepsOthers | app/page.tsx:28 | every character other than an upper-case ASCII letter is left as it is |
| Strings.LowerIdempotent | app/page.tsx:28 | lower-casing a lower-cased text changes nothing |
| Strings.ContainsAt | app/page.tsx:28 | `includes` (`Contains`) holds exactly when the pattern occurs at some position of the text |
| Strings.Split | app/page.tsx:19 | splitting on a separator gives one more piece than there are separators; no piece holds the separator, and joining the pieces with it gives the text back |
| Strings.Join | app/page.tsx:60 | `join` puts one separator between neighbouring pieces: the text holds one separator fewer than there are pieces, besides those inside the pieces |
| Strings.SplitJoin | app/page.tsx:19 | splitting a join of separator-free pieces gives back exactly those pieces, so `split` inverts `join` |
| ActionItems.LooksLikeBullet | app/page.tsx:26-27 | a bullet has a plain space right after its marker, and so always opens with a marker the strip removes |
| ActionItems.ContainsTodo | app/page.tsx:28 | a line that contains "todo" in any letter case has at least four characters |
| ActionItems.IsActionLine | app/page.tsx:23-32 | the keep rule of the map callback; a line of whitespace only never satisfies it |
| ActionItems.HasMarker | app/page.tsx:35 | a match of `^[-*]\s+` has at least one whitespace character after the marker |
| ActionItems.StripMarker | app/page.tsx:35 | a line with a `-`/`*` marker and whitespace loses the marker and the whole whitespace run after it, and keeps the rest as it is; any other line is unchanged |
| ActionItems.Classify | app/page.tsx:22-41 | a whitespace-only line yields nothing; a yielded item carries the line's index and a non-empty description that is a tail of the trimmed line and does not start with whitespace |
| ActionItems.ClassifyAll | app/page.tsx:21-22 | the `.map` over the lines: one entry per line, entry `i` being what line `i` yields with index `i` |
| ActionItems.DescriptionShape | app/page.tsx:23-35 | an action line's description is non-empty and starts with non-whitespace, because the trimmed line ends in non-whitespace |
| ActionItems.Present | app/page.tsx:42 | the null filter keeps no more items than there were entries, and every kept item was produced by some entry; PresentCorrect gives the exact content |
| ActionItems.PresentSound | app/page.tsx:42 | when entries carry their positions, every item the null filter keeps is the entry at its id |
| ActionItems.PresentOrdered | app/page.tsx:42 | when entries carry their positions, the ids of the kept items strictly increase |
| ActionItems.PresentComplete | app/page.tsx:42 | when entries carry their positions, the null filter drops no produced item |
| ActionItems.PresentCorrect | app/page.tsx:21-42 | the kept items are exactly the non-null entries, in position order, so an entry is non-null if and only if some kept item carries its position |
| ActionItems.ClassifiedLinesCorrect | app/page.tsx:21-42 | mapping the lines and filtering the nulls gives, in line order, exactly what each line yields, with ids strictly increasing |
| ActionItems.Extract | app/page.tsx:18-45 | the whole extractor yields at most one item per line of the split text; ExtractCorrect gives the exact content |
| ActionItems.ExtractCorrect | app/page.tsx:18-45 | on the notes text: at most one item per line; ids are line indices, strictly increasing and so unique; each item is what its own line yields; a line yields an item if and only if some item carries its index |
| ActionItems.ExtractKeepsActionLines | app/page.tsx:23-32 | line `i` has an item if and only if its trimmed form is non-empty and starts with `"- "` or `"* "` or contains "todo" in any case |
| ActionItems.ExtractedItem | app/page.tsx:35-40 | each item's description is its own line trimmed and stripped of its marker |
| ActionItems.BlankLinesDropped | app/page.tsx:23-24 | an empty or whitespace-only line never produces an item |
| ActionItems.DescriptionsWellFormed | app/page.tsx:23-39 | every extracted description is non-empty, does not start with whitespace and holds no line break |
| ActionItems.DescribeKeepsOut | app/page.tsx:23-35 | trimming and stripping the marker introduce no new character |
| Csv.Escape | app/page.tsx:56 | escaping adds exactly one character per double quote |
| Csv.UnescapeEscape | app/page.tsx:55-56 | collapsing `""` back to `"` recovers the original text from its escaped form |
| Csv.EscapeKeepsOthers | app/page.tsx:56 | escaping neither adds nor removes any character other than `"` |
| Csv.Row | app/page.tsx:54-57 | a row opens and closes with `"`, is two characters longer than the escaped description, and its interior unescapes to the description |
| Csv.Export | app/page.tsx:47-60 | no text is produced if and only if there are no items; a produced text starts with the header and a line feed and ends with `"`, so it has no trailing line break |
| Csv.ParseQuotedEscape | app/page.tsx:56-57 | an escaped field and its closing quote read back as the original description, leaving what follows untouched |
| Csv.ParseRecordsRows | app/page.tsx:54-60 | the rows joined with line feeds read back as the descriptions, in order |
| Csv.DecodeExport | app/page.tsx:52-60 | decoding an exported text gives back every item's description in order, whatever characters it holds, line breaks and quotes included |
| Csv.ExportLines | app/page.tsx:53-60 | when no description holds a line break, the text splits into exactly the header followed by one quoted row per item: one line more than there are items |
| Csv.ExportExtracted | app/page.tsx:18-60 | exporting what the extractor found gives the header and then, line by line, each item's quoted row, and the text decodes back to the descriptions |
| Scenarios.SpacedBullet | app/page.tsx:26-35 | `- milk` on any line becomes the item `milk` carrying that line's index |
| Scenarios.UnspacedBullet | app/page.tsx:26-32 | `-milk` is not a bullet and has no "todo", so it is dropped |
| Scenarios.TodoLineUnstripped | app/page.tsx:23-40 | ` ask TODO` is kept for its upper-case "todo" and its description is the trimmed line unchanged |
| Scenarios.TabAfterMarker | app/page.tsx:26-35 | `-\ttodo` is not a bullet, but it is kept for its "todo" and then loses both the marker and the tab |
| Scenarios.GluedMarkerKept | app/page.tsx:26-35 | `-todo` is kept for its "todo", and its description keeps the dash, because no whitespace follows the marker |
| Scenarios.QuotedEscape | app/page.tsx:56 | the quotes in `a "b"` are each doubled |

## Left out

- React state (`useState`), event handlers and all JSX rendering (lines 11-12, 44, 73-152) are UI plumbing. The model's functions take the notes text and the item list as parameters instead.
- The Blob, object URL and anchor click that download the file (lines 61-70) are browser I/O. The model stops at the CSV text.
- The disabled state of the download button (line 115) has no model of its own. It guards the same empty-list case that `Csv.Export` refuses.
- `toLowerCase()` is modelled for ASCII letters only.
  - No non-ASCII character lower-cases to text holding `t`, `o` or `d`, so the "todo" test comes out the same; the lower-cased text is used for nothing else.
- JavaScript strings are sequences of UTF-16 code units, while Dafny's `char` is a Unicode scalar value. Lone surrogates cannot be written, and a character outside the Basic Multilingual Plane counts as one character, not two.
