# Watermark detection and removal engine, in Dafny

This project models the text engine of a small web tool. The tool finds and removes invisible or look-alike Unicode characters ("watermarks") in AI-generated text, and the engine consists of three functions of `app.py`:

- `get_watermark_definitions` returns two fixed tables. The first maps six typographic quotes and dashes to ASCII. The second is a catalog of 67 characters, each with a description, in insertion order.
- `detect_watermarks` normalizes the quotes and dashes. It then counts every catalog character of the normalized text into a stats map of description, count and `U+XXXX` label, and replaces each such character by an HTML `<span class="watermark" ...>` marker.
- `remove_watermarks` normalizes the same way. It then turns U+00A0 into a space, deletes every other catalog character, and finally deletes U+0080–U+009F, U+E000–U+F8FF and U+FFF0–U+FFFF.

Strings are `seq<char>`, and a Dafny `char` is a Unicode scalar value. A Python `str` can also hold lone surrogates (U+D800–U+DFFF), which a `char` cannot; see "## Left out".

Both functions are imperative loops of single-character `str.replace` calls over the tables. Each is modelled twice:

- as a Dafny `method` with the same loops (`Typography.NormalizeTypography`, `Detector.DetectWatermarks`, `Cleaner.RemoveWatermarks`);
- as a pure per-character map (`Typography.Normalize`, `Detector.Mark` with `Detector.StatsOf`, `Cleaner.Clean`).

Each method is proved equal to its map. The bridge is `Strings.ReplaceStep`: if the character being replaced occurs in no earlier output, a replace step is the same as extending a per-character table by one entry. The catalog facts behind that condition are proved from the tables themselves. Every key lies in one of the blocks U+00A0, U+00AD, U+061C, U+180E, U+2000–U+206F, U+3000 and U+FEFF. The replacement characters, the descriptions, the labels and the marker template lie outside those blocks.

On top of the maps the model proves:

- concatenation homomorphism, length bound, idempotence and exact counts for cleaning;
- the stats stated against the submitted text;
- a parser for the markers that reads the marked text back into the normalized text;
- that detection after cleaning finds nothing.

Modules:

- `strings.dfy`: `Strings`, `str.replace`/`str.count` and table rewriting;
- `catalog.dfy`: `Catalog`, the two tables;
- `labels.dfy`: `Labels`, the `U+%04X` label and its decoding;
- `typography.dfy`: `Typography`, the quote and dash pass;
- `detector.dfy`: `Detector`;
- `cleaner.dfy`: `Cleaner`;
- `laws.dfy`: `Agreement`, detection against cleaning, and sample texts.

Behaviour of the code worth knowing:

- The cleaner substitutes as well as deletes: U+00A0 becomes a space, and quotes and dashes become ASCII (app.py:148-154). It also deletes the three ranges of app.py:160, which are not catalog characters.
- Detection marks the normalized text, and a marker carries the label, not the character. So reading the markers back gives the normalized text, not the submitted text (`Detector.DetectRoundTrip`). This is proved for every input whose normalized form does not itself hold the opening `<span class="watermark" title="` of a marker, in particular for every input without `<` (`Detector.WithoutAngle`). A literal marker in the input is marked exactly like the character it stands for (`Detector.MarkedTextAmbiguous`).
- The catalog is fixed in the code (app.py:22-94), and the model states it entry by entry.

## Model

| member | source | states |
|---|---|---|
| Strings.ReplaceAll | app.py:111 | `s.replace(c, r)` for one character: text without `c` is unchanged, and every output character is either an unreplaced character of `s` or a character of `r` |
| Strings.Count | app.py:118 | `text.count(char)` is the multiplicity of the character in the text, and it is positive exactly when the character occurs |
| Strings.ReplaceStep | app.py:110-111 | replacing a key that no earlier output contains, after a per-character rewrite, is the rewrite through the table extended by that key |
| Strings.RewriteUnused | app.py:118-119 | a table entry for a character that does not occur changes nothing, so a skipped iteration of the marking loop is harmless |
| Catalog.KeysInBlock | app.py:22-94 | every catalog key lies in one of the blocks U+00A0, U+00AD, U+061C, U+180E, U+2000–U+206F, U+3000, U+FEFF |
| Catalog.KeysDistinct | app.py:22-94 | the 67 catalog keys are pairwise distinct, as the keys of a Python dict are |
| Catalog.DescribeAt | app.py:22-94 | the description looked up for the key of entry `i` is that entry's own description |
| Catalog.WatermarkNotInert | app.py:22-94 | no catalog character is one of the characters descriptions, labels, markers and ASCII replacements are made of |
| Catalog.ReplacementsFacts | app.py:12-19 | all six replacement keys are catalog keys, and each replacement is one inert character |
| Catalog.OutputsPlain | app.py:12-19 | the replacement characters `'`, `"`, `-` and the space of app.py:154 are not catalog characters |
| Catalog.RewriteCatalog | app.py:117-131 | rewriting through a table made from the catalog sends a catalog character to its entry's output and keeps every other character |
| Labels.Hex | app.py:123 | upper-case hexadecimal digits, at most four for a code point below U+10000 |
| Labels.HexRoundTrip | app.py:123 | the digits of `Hex(n)` denote `n` |
| Labels.Label | app.py:123 | `U+` followed by hexadecimal digits, exactly six characters for a code point below U+10000 |
| Labels.LabelRoundTrip | app.py:129 | decoding the label of a character gives the character back |
| Labels.LabelInjective | app.py:123 | distinct characters have distinct labels |
| Typography.NormalizeChar | app.py:12-19 | one character becomes one character, and it changes exactly when it is one of the six typographic keys |
| Typography.TypographicIsWatermark | app.py:12-19 | every typographic key is also a catalog character |
| Typography.RewriteReplacements | app.py:110-111 | the table-driven rewrite through `replacements` is the per-character normalization |
| Typography.NormalizeTypography | app.py:110-111 | the replacement loop (also app.py:148-149) computes the per-character normalization |
| Typography.NormalizeShape | app.py:110-111 | normalization keeps the length and changes only the typographic positions |
| Typography.NormalizeRemovesTypographic | app.py:110-111 | no typographic character survives normalization |
| Typography.NormalizeIdentity | app.py:110-111 | text without typographic characters is left unchanged |
| Typography.NormalizeIdempotent | app.py:110-111 | normalizing twice is normalizing once |
| Typography.NormalizeCount | app.py:110-111 | a character other than the keys and the three ASCII outputs occurs as often after normalization as before |
| Detector.SpanInert | app.py:130 | the marker template adds only inert characters to its description and label |
| Detector.MarkerInert | app.py:130 | a marker contains no catalog character, so a later iteration never rewrites an earlier marker |
| Detector.DetectWatermarks | app.py:98-133 | the detection loops give the per-character marking of the normalized text and the stats of the normalized text; empty input gives `("", {})` |
| Detector.MarkStep | app.py:117-131 | one iteration of the loop replaces the entry's character by its marker, or changes nothing when the character does not occur |
| Detector.StatsStep | app.py:118-124 | one iteration adds the entry's description, count and label exactly when the character occurs |
| Detector.MarkDone | app.py:117-131 | after the last entry the loop's text and map are the marking and the stats of the normalized text |
| Detector.MarkAsRewrite | app.py:117-131 | the table-driven rewrite through the markers is the per-character marking |
| Detector.StatsOfInput | app.py:110-124 | stats keys are exactly the non-typographic catalog characters of the input; each count is its number of occurrences in the input; each label is `U+` and four upper-case hex digits and decodes to the key |
| Detector.PlainText | app.py:110-131 | text without catalog characters is marked as itself with empty stats |
| Detector.ParseMarker | app.py:130 | a parsed character is a catalog character whose marker starts the text |
| Detector.LabelInert | app.py:129 | a label is made of inert characters and holds no `"`, so the title attribute of a marker ends after the label |
| Detector.SpanShape | app.py:130 | in a marker the first `"` after the opening of the title is the one closing it, followed by `>` and the six-character label |
| Detector.ParseMarkerOf | app.py:130 | a marker followed by any text parses as its own character |
| Detector.UnmarkMark | app.py:115-131 | replacing every marker by its character gives back the text that was marked, other characters verbatim and in order, whenever that text does not hold the opening of a marker |
| Detector.DetectRoundTrip | app.py:110-131 | reading the markers back from a detection gives the normalized input whenever the normalized input does not hold the opening of a marker |
| Detector.WithoutAngle | app.py:110-111 | an input without `<` normalizes to a text without a marker opening, so the round trip covers it |
| Detector.MarkHeads | app.py:130 | every character is marked as itself or by a marker starting with `<` |
| Detector.PlainHead | app.py:130 | a marked text starting with a non-catalog character that does not open a marker is not read as a marker there |
| Detector.InertFixed | app.py:110-131 | text made of inert characters is left alone by normalization and by marking |
| Detector.MarkedTextAmbiguous | app.py:130 | the literal marker of a non-typographic catalog character and the character itself are marked identically, so markers cannot be told from input text |
| Cleaner.FilterApart | app.py:160 | no catalog character lies in the filtered ranges |
| Cleaner.CleanOut | app.py:152-156 | what the catalog loop puts in place of a catalog character is at most one character and inert |
| Cleaner.CleanChar | app.py:148-160 | one character becomes at most one character; it is kept exactly when it is neither a catalog character nor in a filtered range, and otherwise becomes nothing, a space, `'`, `"` or `-` |
| Cleaner.NoBreakSpaceListed | app.py:24 | U+00A0 is a catalog character |
| Cleaner.RemoveWatermarks | app.py:135-162 | the three passes compute the per-character cleaning of the input; empty input gives `""` |
| Cleaner.CleanStep | app.py:152-156 | one iteration of the catalog loop extends the replacement table by the entry's output |
| Cleaner.PassesChar | app.py:152-160 | the catalog loop and the filter on one normalized character: U+00A0 becomes a space, other catalog characters and range characters vanish, the rest stays |
| Cleaner.TypographicOut | app.py:148-149 | a typographic character becomes an ASCII character that no later pass touches |
| Cleaner.CleanAsPassesChar | app.py:148-160 | the three passes on one character give the case-by-case map |
| Cleaner.CleanAsPasses | app.py:148-160 | the three passes composed are the per-character map |
| Cleaner.CleanAppend | app.py:148-160 | cleaning a concatenation is concatenating the cleaned parts |
| Cleaner.CleanShorter | app.py:148-160 | cleaning never lengthens the text |
| Cleaner.CleanRemoves | app.py:152-160 | the cleaned text has no catalog character and no character of the filtered ranges |
| Cleaner.CleanFixed | app.py:137-160 | cleaning leaves a text unchanged exactly when it has no catalog character and no character of the filtered ranges |
| Cleaner.CleanIdempotent | app.py:148-160 | cleaning twice is cleaning once |
| Cleaner.CleanCount | app.py:148-160 | every character other than catalog and range characters and the four substitutes occurs as often after cleaning as before |
| Agreement.DetectAfterClean | app.py:117-156 | detecting in a cleaned text gives empty stats and marks nothing |
| Agreement.CleanDropsReported | app.py:117-160 | a reported character is gone after cleaning; an ordinary character is not reported and is kept |
| Agreement.ZeroWidthSpaceEntry | app.py:26 | U+200B is a catalog character with its own description and is not typographic |
| Agreement.ZeroWidthSpaceLabel | app.py:123 | the label of U+200B is `U+200B` |
| Agreement.LettersPlain | app.py:22-94 | the letters `a`, `b`, `c` are neither catalog nor range characters |
| Agreement.SampleClean | app.py:135-162 | `"a\u200Bb\u200Bc"` cleans to `abc` |
| Agreement.SampleCharacters | app.py:118 | U+200B is the only catalog character of `"a\u200Bb\u200Bc"` and occurs twice |
| Agreement.SingleStat | app.py:117-124 | a text with one kind of non-typographic catalog character gets exactly one stat |
| Agreement.SampleStats | app.py:117-124 | detection of `"a\u200Bb\u200Bc"` reports U+200B with count 2 and label `U+200B` |

## Left out

- `translate_text` (app.py:164-218) is a demonstration stand-in for an external translation service with a heuristic language guess; it is not part of the engine.
- The Flask routes `index`, `detect` and `process` and `app.run` (app.py:220-260) are HTTP and JSON plumbing. `process` always cleans before it optionally translates (app.py:244-249); that ordering is the only engine-relevant fact there.
- `static/script.js` is browser code (DOM, `fetch`, clipboard, timers, the language toggle, and the `.trim()` of the input); it is not part of this model.
- Rendering of the marked text as HTML is not modelled. The input is not HTML-escaped (`html` is imported and unused, app.py:3), and the marker is an opaque string built as in app.py:130.
- The regular-expression engine is replaced by a predicate on the code point for the one character class of app.py:160.
- Catalog: `get_watermark_definitions` is modelled as the two constant tables `Catalog.Replacements` and `Catalog.Watermarks` rather than as a function returning fresh dictionaries; the tables are the same on every call.
- Detector.DetectWatermarks: the stats map is a Dafny `map` keyed by character, which has no iteration order; the insertion order of the Python dict (catalog order) is not modelled.
- Inputs holding lone surrogates (U+D800–U+DFFF), which a Python `str` decoded from JSON can hold, are not modelled, since a Dafny `char` cannot hold them. The engine passes such characters through unchanged: they are neither catalog characters nor in the ranges of app.py:160.
