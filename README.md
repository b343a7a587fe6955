# Masterfile automation, modelled in Dafny

`Target_app.py` is a Streamlit app that fills a retailer's masterfile template from a
supplier's onboarding workbook. The user supplies a mapping in JSON: each master column
gets a list of onboarding header aliases. The "Generate" action then works in five steps:

1. It builds an alias table keyed by normalised master column names.
2. It picks the onboarding sheet whose headers match the most master keys.
3. It measures how many columns the master template's header rows use.
4. It resolves every master column to the first alias that names an onboarding column.
   The Listing Action column falls back to the text "List".
5. It writes the data rows into the template from row 3 down.

This project models that core:

- `norm`, the header normaliser (module `Normalize`);
- the cleaned data frames and their non-empty rows (`Frames`);
- the master worksheet and `worksheet_used_cols` (`Sheet`);
- the alias table, the header index and column resolution (`Mapping`);
- the sheet picker (`Picker`);
- the row write (`Writer`);
- the whole action (`Masterfile`).

Code that loops and updates state is modelled as methods with loop invariants. Each method
is proved equal to a specification function, or proved to meet a specification predicate.
The worksheet, which the app updates in place, is a class. The rest is functions with
lemmas about them.

`Mapping` and `Picker` are stated for any header normaliser `norm` they are given. The
matching rules do not depend on what `norm` does. `Masterfile` instantiates both with the
app's `norm` (`Masterfile.AppNorm`).

## Model

| member | source | states |
|---|---|---|
| Normalize.IsSpace | Target_app.py:22 | the characters `str.isspace()` accepts, which `strip()` removes and the regex class `\s` of lines 24 and 32 matches |
| Normalize.TrimEnd | Target_app.py:22 | `rstrip`: the result is no longer than the input, everything cut off is whitespace, and it does not end in whitespace |
| Normalize.TrimStart | Target_app.py:22 | `lstrip`: everything cut off is whitespace, and the result does not start with whitespace |
| Normalize.Strip | Target_app.py:22 | `strip()`: the result neither starts nor ends with whitespace |
| Normalize.StripAt | Target_app.py:22 | each character of `strip()` is the character of the input it was cut from, at the offset of the leading whitespace |
| Normalize.TrimEndIsPrefix | Target_app.py:22 | `rstrip` returns a prefix of its input |
| Normalize.TrimStartIsSuffix | Target_app.py:22 | `lstrip` returns a suffix of its input |
| Normalize.LowerText | Target_app.py:22 | `lower()` keeps the length and lowers each character on its own |
| Normalize.CutWord | Target_app.py:24 | a cut word was followed by whitespace only, and the text is exactly what stays, the word and that whitespace |
| Normalize.CutSeparator | Target_app.py:24 | a cut separator leaves a prefix of the text, and what it cut off matches `\s*[-_ ]\s*` |
| Normalize.StripLocale | Target_app.py:24 | removing the locale tag always leaves a prefix of the text |
| Normalize.StripLocaleSound | Target_app.py:24 | whatever the locale step cuts off matches the pattern `\s*-\s*en\s*[-_ ]\s*us\s*` in full |
| Normalize.StripLocaleAtMatch | Target_app.py:24 | given any match of the pattern at the end of the text, the step cuts just before the whitespace preceding it |
| Normalize.StripLocaleCutsLeftmostMatch | Target_app.py:24 | the step changes the text exactly when some suffix matches the pattern, and it then cuts at the leftmost such suffix, as an end-anchored `re.sub` does |
| Normalize.StripLocaleWithoutDash | Target_app.py:24 | a text without '-' has no locale tag to remove |
| Normalize.LocaleSuffixHasDash | Target_app.py:24 | every match of the locale pattern holds a '-' |
| Normalize.StripLocaleOfMatch | Target_app.py:24 | a text ending in a match of the pattern loses the match and the whitespace before it |
| Normalize.FoldDashes | Target_app.py:26 | the en dash, em dash and minus sign become '-', and every other character is kept |
| Normalize.ReplaceRuns | Target_app.py:28-32 | `re.sub(r"[k]+", " ", …)`: each output character is a space or an input character outside the class; replacing whitespace runs leaves no double space |
| Normalize.ReplaceRunsOutsideClass | Target_app.py:28-30 | a text with no character of the class is left unchanged |
| Normalize.ReplaceSingleSpaces | Target_app.py:32 | a text of letters, digits and single spaces is left unchanged by the whitespace collapse |
| Normalize.StripKeepsNoDoubleSpace | Target_app.py:32 | `strip()` does not create a double space |
| Normalize.SeparateIsNormal | Target_app.py:26-32 | steps 4 to 7 always produce a normal header |
| Normalize.Separate | Target_app.py:26-32 | steps 4 to 7 in the app's order: fold the dashes, then replace runs of separators, of other characters and of whitespace by one space each, then `strip()`; `SeparateIsNormal` and `SeparateKeepsWordChars` state what it yields |
| Normalize.Unsuffixed | Target_app.py:22-24 | steps 1 to 3 in the app's order: `strip()`, `lower()`, then the locale step; `StripLocaleCutsLeftmostMatch` states the last |
| Normalize.Norm | Target_app.py:18-32 | `norm(None)` is ""; every result holds only 0-9, a-z and single spaces, with no space at either end |
| Normalize.NormalIsFixed | Target_app.py:18-32 | every step leaves a normal header unchanged |
| Normalize.NormIdempotent | Target_app.py:18-32 | `norm(norm(s)) == norm(s)` |
| Normalize.StripKeepsWordChars | Target_app.py:22 | `strip()` keeps every letter and digit, in order |
| Normalize.SeparateKeepsWordChars | Target_app.py:26-32 | steps 4 to 7 neither drop nor reorder a letter or digit |
| Normalize.NormKeepsWordChars | Target_app.py:18-32 | `norm` keeps every letter and digit of the text left once the locale tag is cut |
| Normalize.LocaleTagIgnored | Target_app.py:24 | a header ending in a letter or digit, with no '-', normalises the same with or without a trailing locale tag |
| Normalize.UnsuffixedDropsTag | Target_app.py:22-24 | a header ending in a letter or digit, followed by a locale tag, comes out of steps 1 to 3 as the header stripped and lowered; the header may hold '-' |
| Normalize.TaggedHeaderNorm | Target_app.py:18-32 | such a tagged header normalises as the header stripped and lowered, through steps 4 to 7, with no locale step; it may hold '-' |
| Normalize.UnsuffixedIgnoresTag | Target_app.py:22-24 | when the header has no '-', steps 1 to 3 give the same text with or without the tag |
| Normalize.EnUsTagMatches | Target_app.py:145 | the tag " - en-US" of the instructions matches the locale pattern once lowered |
| Normalize.WalmartBrandNameExample | Target_app.py:145 | "Walmart Brand Name - en-US" and "Walmart Brand Name" have the same normal form |
| Normalize.HyphenatedHeaderExample | Target_app.py:18-32 | "E-Mail - en-US" and "E-Mail" have the same normal form: a header's own '-' does not stop the tag from being cut |
| Frames.NonemptyRows | Target_app.py:63-68 | `nonempty_rows`: at most the number of rows; 0 exactly when every row is blank; all rows exactly when none is blank |
| Frames.NonemptyRowsCount | Target_app.py:63-68 | `nonempty_rows` is exactly the number of rows with a non-empty cell |
| Frames.CleanHeaders | Target_app.py:91 | one header per column, each `strip()`ped |
| Frames.Clean | Target_app.py:89-91 | cleaning changes the headers only, and the data rows stay one cell per header |
| Frames.ColumnValues | Target_app.py:245 | `on_df[h]`: one value per data row, taken from the header's column |
| Frames.HeaderSet | Target_app.py:95 | `header_set`: the normal forms of the sheet's headers, one per column |
| Sheet.Worksheet.Value | Target_app.py:49 | `ws.cell(row, column).value`: the cell's text, or `None` for a cell that holds nothing |
| Sheet.Worksheet.Put | Target_app.py:302 | a cell write sets exactly that cell, and the sheet's `max_column` grows to cover it |
| Sheet.Worksheet.UsedCols | Target_app.py:42-60 | `worksheet_used_cols`: between 1 and `max(1, min(max_column, hard_cap))`; it is the last header column before the first run of `max(empty_streak_stop, 1)` empty columns, or 1 when there is none |
| Sheet.Worksheet.UsedColsDetermined | Target_app.py:42-60 | that characterisation fixes the result |
| Sheet.Worksheet.Displays | Target_app.py:249 | one display per used column: the row-1 text, or "" for an empty cell |
| Mapping.AliasList | Target_app.py:218-221 | one entry's alias list: the user's list, or the single value as a list, with the master key appended when absent; `AliasListKeepsOrder` states it |
| Mapping.AliasListKeepsOrder | Target_app.py:218-221 | an alias list starts with the user's aliases in order and holds the master key; it is one longer exactly when the key was missing |
| Mapping.AliasTable | Target_app.py:216-222 | `mapping_aliases_by_master`: the entries stored in document order under their normalised keys; `AliasTableKeys` and `AliasTableLastWins` state its keys and values |
| Mapping.AliasTableKeys | Target_app.py:216-222 | the table's keys are exactly the normalised master keys |
| Mapping.AliasTableLastWins | Target_app.py:216-222 | under a key, the last entry normalising to it wins |
| Mapping.BuildAliasTable | Target_app.py:216-222 | the loop builds exactly the alias table |
| Mapping.HeaderIndex | Target_app.py:245 | every index value is a column of the frame |
| Mapping.HeaderIndexKeys | Target_app.py:245 | the index's keys are exactly the normalised onboarding headers |
| Mapping.HeaderIndexLastWins | Target_app.py:245 | a key maps to the last header with that normal form |
| Mapping.FirstHit | Target_app.py:267-273 | the first alias, in priority order, that names an onboarding header; none exactly when no alias does |
| Mapping.FindAlias | Target_app.py:267-273 | the loop over the aliases finds exactly that first hit |
| Mapping.AliasesFor | Target_app.py:264 | `.get(disp_norm, [m_disp])`: the table's list for the normalised display, or the display alone |
| Mapping.Resolve | Target_app.py:259-287 | one master column's resolution: skipped, matched through an alias to an onboarding column, filled with "List", or unmatched; `ResolveCases` states the four cases |
| Mapping.ResolveCases | Target_app.py:258-287 | an empty display is skipped; otherwise the column matches through the first hitting alias and reads its header's column; without a hit, Listing Action gets "List" and any other column is unmatched; each case holds in both directions |
| Mapping.ResolveWithoutEntry | Target_app.py:264 | a display with no table entry falls back to itself as its only alias |
| Mapping.ResolveOne | Target_app.py:259-287 | one column of the loop resolves exactly as `Resolve` says |
| Mapping.ResolvedStep | Target_app.py:275-285 | recording one column's resolution extends the resolved columns by one |
| Mapping.MatchReadsColumn | Target_app.py:275-277 | a matched column always reads the onboarding column its chosen alias names, never the "List" fill |
| Mapping.UnmatchedDisplays | Target_app.py:283-284 | `unmatched`: the displays of the unmatched columns, in column order; `UnmatchedDisplaysMembers` states which |
| Mapping.UnmatchedDisplaysMembers | Target_app.py:283-284 | `unmatched` holds exactly the displays of unmatched columns, at most one per column |
| Mapping.ResolveColumns | Target_app.py:258-287 | every master column is resolved, no other column gets an entry, and `unmatched` lists the unmatched displays in column order |
| Picker.KeyMatches | Target_app.py:99 | `any(norm(a) in header_set for a in aliases)` |
| Picker.MatchedKeys | Target_app.py:97-100 | the master keys of which some alias is among the headers; `CountMatches` counts them |
| Picker.Matches | Target_app.py:96-100 | `matches`: how many master keys match the sheet's headers |
| Picker.Score | Target_app.py:102-103 | the score scaled by 100: 100 per matched key plus 1 when a row holds data; `ScoreRanks` and `ScoreOrder` state how it ranks sheets |
| Picker.MatchedKeysBound | Target_app.py:96-100 | no more keys match than the table has |
| Picker.CountMatches | Target_app.py:96-100 | the loop counts exactly the master keys with an alias among the headers |
| Picker.ScoreRanks | Target_app.py:102-103 | a score is at most 100 per key plus 1; scores rank sheets by matched keys, then by holding data |
| Picker.ScoreOrder | Target_app.py:103 | the integer score orders sheets as `matches + min(rows, 1) * 0.01` does over exact reals |
| Picker.ScoreFrame | Target_app.py:95-103 | the score of one cleaned sheet |
| Picker.Scores | Target_app.py:87-105 | one score per sheet |
| Picker.ScoresAt | Target_app.py:87-105 | a parsed sheet's entry is its score; an unparsed sheet's entry is -1 |
| Picker.FirstMaxUnique | Target_app.py:105 | the first sheet with the highest score is unique |
| Picker.PickBest | Target_app.py:71-111 | fails, with "No readable sheet found in onboarding workbook.", exactly when no sheet parses; otherwise returns the cleaned frame and name of the first sheet with the highest score |
| Writer.CellValue | Target_app.py:301-306 | what a column's source gives data row `i`: "List" for the Listing Action fill, the onboarding value while `i < len(src)`, and nothing after |
| Writer.WriteEffect | Target_app.py:293-306 | header rows, columns without a source and rows past the data stay as they were; a Listing Action column holds "List" in each data row; a matched column holds its onboarding value |
| Writer.WrittenDetermined | Target_app.py:296-306 | the write's result is fixed by its inputs |
| Writer.WriteCell | Target_app.py:298-306 | one cell of the loop advances the write by one cell |
| Writer.WriteRows | Target_app.py:296-306 | the loop writes exactly the cells the sources give, from row 3 down, and leaves every other cell as it was |
| Masterfile.AppNorm | Target_app.py:18-32 | the app's `norm` on a string gives a normal header |
| Masterfile.SourcesCoverRows | Target_app.py:303-306 | a matched column has a value for every data row |
| Masterfile.Generate | Target_app.py:214-306 | fails, leaving the template unchanged, exactly when no sheet parses; otherwise picks the first best sheet, measures the header span, resolves every column, and writes the rows as `WriteRows` states |

## Left out

- The Streamlit interface, JSON parsing, reading the workbooks with openpyxl and pandas, and saving and downloading the result are I/O. The parsed mapping, the sheets and the template are inputs of `Masterfile.Generate`.
- `top_matches` (difflib's `SequenceMatcher`) only produces suggestion text for unmatched columns. It is not modelled.
- `report_lines` and the picker's `best_info` text are display strings. They are not modelled.
- Picker.Score: the app's score is a float, `matches + min(rows, 1) * 0.01`. The model uses the integer `100 * matches + min(rows, 1)`. `Picker.ScoreOrder` shows the two order sheets alike over exact reals; float rounding with very many keys is not modelled.
- Normalize.LowerText: lowers only the ASCII letters A-Z. Python's `lower()` also maps a few non-ASCII characters onto ASCII letters, for example the Kelvin sign to 'k'. The model drops those characters in step 6 instead.
- Normalize.Norm: the model takes a string or `None`. Python's `str()` of other cell types, such as numbers and dates, is not modelled; an alias that is not a string is carried as its `str()` text (`Mapping.Scalar`).
- Sheet.Worksheet.Displays: `value or ""` also maps 0 and `False` to "". The model's cells hold strings only.
- Frames.Clean: pandas renames duplicate headers when it parses a sheet, and `on_df[h]` returns a frame rather than a column when `strip()` makes two headers equal. The model reads the column of the last such header, as the header index keeps it, and does not model that case.
- A sheet that raises an exception while it is parsed is modelled as an unparsed sheet (`SheetEntry.parsed == None`). Why pandas fails is not modelled.
- Writer.WriteRows: `str(src.iloc[i])` of a cell that pandas already read as text is the text itself. The model writes the text.
