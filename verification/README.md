# Practice pages of the terminal-styled learning site

This project models, in Dafny, the client-side logic of two practice pages of
a Next.js learning site.

The word search:
- The page loads a puzzle: a grid of letters as text plus the answer placements.
- It keeps the list of words the player has found.
- The grid component parses the text into cells.
- A selection is made with two clicks, and hovering previews the straight path between them.
- A selection is matched against the answers in either direction.
- The cells of solved words are highlighted.

The code exercise:
- The page shows generated solution code, then lets the user retype it from memory.
- It normalises both texts (trim, line endings, runs of blanks, blanks around punctuation).
- It scores the attempt by positional character agreement, rounded to a percentage.
- It picks one of five Spanish feedback messages.
- The editor turns the Tab key into two spaces.
- The editor and the display map a language name to a highlighting class.

Modules:
- `Geometry`: the stepped path between two cells.
- `PuzzleText`: `split`/`join` and grid parsing.
- `WordSearchGrid`: the grid component, as a class over its React state.
- `WordSearchPage`: the page state and the found-word list.
- `Normalize`: the normalisation pipeline.
- `Scoring`: the score, rounding and verdict.
- `CodeExercise`: the page state and the Comprobar action.
- `CodeEditor`: the Tab key.
- `LanguageClass`: the highlighting-class lookup, both as intended and as written.

Component state that React updates through setters is a Dafny `class`; each
handler is a `method` whose `modifies` clause names the state it sets.
JavaScript details are written out where they matter:
- `split` keeps empty pieces;
- `trim` and `\s` use the full ECMAScript whitespace set;
- the global regular-expression replace is scanned left to right;
- `substring` clamps and swaps its arguments;
- `Math.round` on a non-negative ratio;
- string truthiness;
- property reads on an object literal that find inherited members.

## Model

| member | source | states |
|---|---|---|
| Geometry.Path | src/components/word-search-grid.tsx:87-98 | the stepped path has `steps + 1` cells and starts at the anchor cell |
| Geometry.PathEndsAtTarget | src/components/word-search-grid.tsx:83-98 | the path ends on the hovered cell exactly when the two cells share a row, a column or a diagonal |
| Geometry.PathReversed | src/components/word-search-grid.tsx:87-98 | for a straight pair, the path from the far end is the same path reversed |
| Geometry.PathCellsSymmetric | src/components/word-search-grid.tsx:111-122 | for a straight pair, both directions cover the same cells, which is why a match in either direction is sound |
| Geometry.OnPath | src/components/word-search-grid.tsx:137-150 | a cell lies on a straight path iff it lies in the bounding box and its step counts to the two ends add up |
| Geometry.OnPathStep | src/components/word-search-grid.tsx:144-146 | the i-th stepped cell lies in the bounding box, i steps from the start and `steps - i` from the end |
| Geometry.OnPathComplete | src/components/word-search-grid.tsx:144-149 | every cell in the box whose step counts add up is visited by the loop |
| Geometry.PathDistinct | src/components/word-search-grid.tsx:94-98 | the loop never visits a cell twice |
| Geometry.DistinctCount | src/components/word-search-grid.tsx:84-97 | a sequence without repeats has as many distinct elements as positions |
| Geometry.PathCellCount | src/components/word-search-grid.tsx:84-100 | the highlighted set has exactly `steps + 1` cells and holds the anchor, and also the hovered cell when the pair is straight |
| PuzzleText.Split | src/components/word-search-grid.tsx:30-31 | `split` gives one more piece than separators; no piece contains the separator or any character foreign to the input |
| PuzzleText.JoinSplit | src/components/word-search-grid.tsx:30-31 | joining the pieces with the separator gives back the text |
| PuzzleText.SplitJoin | src/components/word-search-grid.tsx:30-31 | splitting a join of separator-free pieces gives back the pieces |
| PuzzleText.SplitPiece | src/components/word-search-grid.tsx:30-31 | a separator-free text splits into itself |
| PuzzleText.SplitPieceThen | src/components/word-search-grid.tsx:30-31 | splitting `w + sep + t` puts `w` in front of the pieces of `t` |
| PuzzleText.ParseGrid | src/components/word-search-grid.tsx:29-32 | one row per line, at least one cell per row, and no cell contains a space or a newline |
| PuzzleText.ParseGridRoundTrip | src/components/word-search-grid.tsx:29-32 | joining the cells with spaces and the rows with newlines gives back the puzzle text |
| WordSearchGrid.FirstMatchSymmetric | src/components/word-search-grid.tsx:105-127 | the matched word does not depend on the direction of the selection |
| WordSearchGrid.FirstMatchIsFirst | src/components/word-search-grid.tsx:105-127 | no match iff no answer has these endpoints; otherwise the word of the first answer that has them |
| WordSearchGrid.MatchedSelectionHighlighted | src/components/word-search-grid.tsx:56-60 | once a matched word is in the found set, every cell of the selected straight path is highlighted |
| WordSearchGrid.GridState.constructor | src/components/word-search-grid.tsx:20-40 | mounting starts from empty state, then parses a non-empty puzzle text |
| WordSearchGrid.GridState.ParseEffect | src/components/word-search-grid.tsx:28-40 | a non-empty text replaces the grid and clears the selection and the found words; `isSelecting` is kept; an empty text changes nothing |
| WordSearchGrid.GridState.ReceiveProps | src/components/word-search-grid.tsx:28-40 | new props replace the answers; the parse effect runs only when the text changed and is non-empty |
| WordSearchGrid.GridState.HandleCellClick | src/components/word-search-grid.tsx:43-64 | the first click anchors a one-cell selection; the second ends it and records and reports the first matching non-empty word; found words only grow |
| WordSearchGrid.GridState.HandleCellHover | src/components/word-search-grid.tsx:67-71 | while selecting, the highlight becomes the path from the anchor if straight; otherwise it is unchanged |
| WordSearchGrid.GridState.UpdateSelectedCells | src/components/word-search-grid.tsx:74-102 | a straight pair highlights exactly the path cells; any other pair leaves the highlight as it was |
| WordSearchGrid.GridState.CheckSelection | src/components/word-search-grid.tsx:105-127 | returns the word of the first answer with these endpoints in either order, or nothing when none has them |
| WordSearchGrid.GridState.IsCellInFoundWord | src/components/word-search-grid.tsx:130-155 | true iff some found answer's stepped path visits the cell; never true before any word is found |
| WordSearchPage.Words | src/app/word-search/page.tsx:159 | the word list has one entry per answer, in answer order |
| WordSearchPage.Recorded | src/app/word-search/page.tsx:63-67 | the word is appended only when not yet listed; the old list is kept as a prefix and stays duplicate-free |
| WordSearchPage.RecordAllDistinct | src/app/word-search/page.tsx:63-67 | any series of reports keeps the list duplicate-free, holding exactly the old and reported words with the old ones first |
| WordSearchPage.PageState.constructor | src/app/word-search/page.tsx:28-31 | no puzzle and no found words |
| WordSearchPage.PageState.LoadSucceeded | src/app/word-search/page.tsx:45-49 | a loaded puzzle replaces the data and empties the found list |
| WordSearchPage.PageState.HandleWordFound | src/app/word-search/page.tsx:63-67 | the found list becomes `Recorded(old list, word)` and stays duplicate-free |
| WordSearchPage.PageState.WordList | src/app/word-search/page.tsx:158-159 | a word list exists iff a puzzle is loaded, and it holds the words of the answers, one per answer in answer order |
| Normalize.LeadingSpaces | src/app/code-exercise/page.tsx:73 | the count stops at the first non-blank |
| Normalize.LeadingSpacesSkipsSpace | src/app/code-exercise/page.tsx:73 | every character it counts is a blank |
| Normalize.TrailingSpaces | src/app/code-exercise/page.tsx:73 | the count from the end stops at the last non-blank |
| Normalize.TrailingSpacesSkipsSpace | src/app/code-exercise/page.tsx:73 | every character it counts is a blank |
| Normalize.TrimStart | src/app/code-exercise/page.tsx:73 | a non-empty result starts with a non-blank |
| Normalize.TrimEnd | src/app/code-exercise/page.tsx:73 | a non-empty result ends with a non-blank |
| Normalize.Trim | src/app/code-exercise/page.tsx:73 | a non-empty result has a non-blank at both ends |
| Normalize.ReplaceCrLf | src/app/code-exercise/page.tsx:74 | a non-blank first or last character stays at its end (what the step rewrites is stated by `ReplaceCrLfPair` and `ReplaceCrLfIdle`) |
| Normalize.ReplaceCrLfPair | src/app/code-exercise/page.tsx:74 | every CR LF pair becomes one LF, and the text on either side of the pair is rewritten on its own |
| Normalize.ReplaceCrLfIdle | src/app/code-exercise/page.tsx:74 | a text with no carriage return directly before a line feed is left unchanged |
| Normalize.LeadingSpacesRun | src/app/code-exercise/page.tsx:75 | a whitespace run in front of a non-blank is exactly what one `\s+` match takes |
| Normalize.LeadingSpacesPrefix | src/app/code-exercise/page.tsx:75-76 | text appended after the first non-blank does not change the whitespace run at the head |
| Normalize.CollapseSpaces | src/app/code-exercise/page.tsx:75 | the result is never longer than the input (each maximal whitespace run becomes one plain space, as stated by `CollapseRun`, `CollapseLeadingRun`, `CollapseConcat` and `CollapseIdle`) |
| Normalize.CollapseEnds | src/app/code-exercise/page.tsx:75 | collapsing keeps each end blank or non-blank as it was, and keeps a non-blank first character |
| Normalize.CollapseShape | src/app/code-exercise/page.tsx:75 | after collapsing, every blank is a plain space and no two blanks are adjacent |
| Normalize.CollapseRun | src/app/code-exercise/page.tsx:75 | a whitespace run between two non-blanks, of any length and any whitespace characters, becomes exactly one space, and the text on either side is collapsed on its own |
| Normalize.CollapseLeadingRun | src/app/code-exercise/page.tsx:75 | a whitespace run at the head of the text becomes exactly one space |
| Normalize.CollapseConcat | src/app/code-exercise/page.tsx:75 | no whitespace run reaches across a non-blank, so the text on either side of one is collapsed on its own |
| Normalize.StripAroundPunct | src/app/code-exercise/page.tsx:76 | a non-blank first character is kept (what the replacement removes and keeps is stated by the `Strip…` lemmas below) |
| Normalize.StripMatchInside | src/app/code-exercise/page.tsx:76 | a match at the head of a text ending in a word character is the same match when more text follows |
| Normalize.StripConcat | src/app/code-exercise/page.tsx:76 | no match reaches across a word character (neither blank nor punctuation), so the text on either side of one is rewritten on its own |
| Normalize.StripKeepsSpaceRun | src/app/code-exercise/page.tsx:76 | whitespace in front of a word character, or at the end of the text, is copied unchanged |
| Normalize.StripKeepsBlankBetweenWords | src/app/code-exercise/page.tsx:76 | whitespace between two word characters survives unchanged, and the text on either side is rewritten on its own |
| Normalize.StripDropsBlanksAroundPunct | src/app/code-exercise/page.tsx:76 | the whitespace before and after a punctuation character is removed and the punctuation character kept |
| Normalize.AfterPunct | src/app/code-exercise/page.tsx:76 | the rest after one match is a strictly shorter suffix that starts with a non-blank |
| Normalize.StripHeadPunct | src/app/code-exercise/page.tsx:76 | the output starts with punctuation only where a match began |
| Normalize.StripKeepsLast | src/app/code-exercise/page.tsx:76 | a non-blank last character survives the replacement |
| Normalize.StripLeavesNoBlankBesidePunct | src/app/code-exercise/page.tsx:76 | after the replacement, no blank stands next to punctuation |
| Normalize.StripKeepsChars | src/app/code-exercise/page.tsx:76 | the replacement introduces no character that was not in its input |
| Normalize.StripKeepsBlanksAreSpaces | src/app/code-exercise/page.tsx:76 | if every blank is a plain space before the replacement, the same holds after it |
| Normalize.StripKeepsNoDoubleBlank | src/app/code-exercise/page.tsx:76 | the replacement never creates two adjacent blanks |
| Normalize.NormalizeCode | src/app/code-exercise/page.tsx:71-77 | normalised code has no blank at either end, only plain spaces, no two blanks in a row and no blank beside punctuation, and its non-blank characters are those of the input, in order |
| Normalize.StagesKeepEnds | src/app/code-exercise/page.tsx:74-76 | text without a blank at either end keeps that through the three replacements |
| Normalize.NonBlankConcat | src/app/code-exercise/page.tsx:71-77 | dropping blanks distributes over concatenation |
| Normalize.NonBlankAllSpace | src/app/code-exercise/page.tsx:71-77 | an all-blank text has no non-blank characters |
| Normalize.NonBlankSkip | src/app/code-exercise/page.tsx:71-77 | skipping a blank prefix keeps the non-blank characters |
| Normalize.TrimStartKeepsText | src/app/code-exercise/page.tsx:73 | trimming the start keeps the non-blank characters |
| Normalize.TrimEndKeepsText | src/app/code-exercise/page.tsx:73 | trimming the end keeps the non-blank characters |
| Normalize.TrimKeepsText | src/app/code-exercise/page.tsx:73 | `trim` keeps every non-blank character, in order |
| Normalize.ReplaceCrLfKeepsText | src/app/code-exercise/page.tsx:74 | the line-ending step keeps every non-blank character, in order |
| Normalize.CollapseKeepsText | src/app/code-exercise/page.tsx:75 | collapsing blanks keeps every non-blank character, in order |
| Normalize.StripKeepsText | src/app/code-exercise/page.tsx:76 | removing blanks around punctuation keeps every non-blank character, in order |
| Normalize.AfterPunctKeepsText | src/app/code-exercise/page.tsx:76 | one match step keeps the punctuation and the non-blank text after it |
| Normalize.CollapseIdle | src/app/code-exercise/page.tsx:75 | a text of single plain spaces is left unchanged |
| Normalize.StripIdle | src/app/code-exercise/page.tsx:76 | a text with no double blank and no blank beside punctuation is left unchanged |
| Normalize.CollapsedOnlyStrips | src/app/code-exercise/page.tsx:71-77 | on text with non-blank ends and single plain spaces, only the punctuation step changes anything |
| Normalize.NormalizeKeepsWordGap | src/app/code-exercise/page.tsx:71-77 | the space between two words survives: normalising `a b` gives the normalised words joined by one space |
| Normalize.NormalizeDropsGapAroundPunct | src/app/code-exercise/page.tsx:71-77 | the spaces around an operator disappear: normalising `a + b` gives the normalised words joined by the operator |
| Normalize.NormalizeIdempotent | src/app/code-exercise/page.tsx:71-77 | normalising twice equals normalising once |
| Scoring.SameCountUpTo | src/app/code-exercise/page.tsx:91-95 | the count of agreeing positions below k is at most k |
| Scoring.CountSameChars | src/app/code-exercise/page.tsx:88-95 | the loop counts the positions, up to the shorter length, where both texts agree |
| Scoring.SameCountUpToFull | src/app/code-exercise/page.tsx:91-95 | the count reaches k iff the texts agree on every position below k |
| Scoring.SameCountMax | src/app/code-exercise/page.tsx:88-95 | the count equals the longer length iff the texts are equal |
| Scoring.SameCountUpToSymmetric | src/app/code-exercise/page.tsx:91-95 | the count does not depend on argument order |
| Scoring.RoundPercent | src/app/code-exercise/page.tsx:97 | the result is `part / whole * 100` rounded half up, at most 100 when the part is at most the whole |
| Scoring.RoundPercentBounds | src/app/code-exercise/page.tsx:97 | the integer formula is non-negative and lies within half a unit of the exact percentage |
| Scoring.ScoreOf | src/app/code-exercise/page.tsx:83-98 | the score is at most 100, and exactly 100 for identical texts |
| Scoring.SimilarityScore | src/app/code-exercise/page.tsx:83-98 | the imperative scoring computes `ScoreOf` and lies in 0..100 |
| Scoring.ScoreSymmetric | src/app/code-exercise/page.tsx:83-98 | swapping solution and attempt does not change the score |
| Scoring.ScorePerfect | src/app/code-exercise/page.tsx:83-98 | the score is 100 iff the texts are equal or agree on at least 99.5% of the longer length |
| Scoring.VerdictFor | src/app/code-exercise/page.tsx:102-112 | the five bands: exactly 100, 90 up to 99, 70 to 89, 50 to 69, below 50 |
| Scoring.VerdictMonotone | src/app/code-exercise/page.tsx:102-112 | a higher score never gets a worse verdict |
| Scoring.Message | src/app/code-exercise/page.tsx:101-112 | each band has its own non-empty feedback text |
| Scoring.MessageIdentifiesVerdict | src/app/code-exercise/page.tsx:101-112 | the five texts are distinct, so the message tells which band the score fell in |
| CodeExercise.Assess | src/app/code-exercise/page.tsx:67-115 | the score is in 0..100; attempts with the same normalised text as the solution get 100 and the "¡Perfecto!" message |
| CodeExercise.LayoutOnlyDifferencesScoreFull | src/app/code-exercise/page.tsx:71-85 | an attempt that differs only in layout scores 100, also against an already normalised solution |
| CodeExercise.PracticeState.constructor | src/app/code-exercise/page.tsx:20-25 | no exercise, empty code, solution view, no result |
| CodeExercise.PracticeState.CodeLoaded | src/app/code-exercise/page.tsx:39-43 | loading stores the exercise and resets the code, the mode and the result |
| CodeExercise.PracticeState.StartPractice | src/app/code-exercise/page.tsx:61-65 | enters practice mode with empty code and no result |
| CodeExercise.PracticeState.EditCode | src/app/code-exercise/page.tsx:224-226 | the editor's text becomes the typed code |
| CodeExercise.PracticeState.ShowSolution | src/app/code-exercise/page.tsx:250-255 | leaves practice mode and keeps the code and the result |
| CodeExercise.PracticeState.CompareCode | src/app/code-exercise/page.tsx:67-115 | with no exercise nothing changes; otherwise the result is the assessment of the typed code against the solution |
| CodeEditor.HandleKeyDown | src/components/code-editor.tsx:35-52 | keys other than Tab are not handled; Tab replaces the selection with two spaces, keeping the text before and after it, and puts the caret at `start + 2` |
| CodeEditor.Substring | src/components/code-editor.tsx:42 | for indices inside the text, in either order, the result is the slice between them; it is never longer than the text |
| CodeEditor.SubstringSymmetric | src/components/code-editor.tsx:42 | the order of the two indices does not matter |
| CodeEditor.SubstringClamps | src/components/code-editor.tsx:42 | indices outside the text act as its nearest end, so indices spanning the whole text give the whole text |
| CodeEditor.TabSplice | src/components/code-editor.tsx:42 | for an in-range selection the new text is the prefix, two spaces, then the suffix, and its length changes accordingly |
| CodeEditor.TabAtCaretInserts | src/components/code-editor.tsx:42-48 | with no selection, Tab inserts two spaces at the caret, and removing them gives back the text |
| CodeEditor.TabPastEnd | src/components/code-editor.tsx:42 | a selection past the end appends two spaces, by `substring`'s clamping |
| LanguageClass.LowerChar | src/components/code-editor.tsx:77 | upper-case ASCII letters map to lower case; other characters are unchanged; no upper-case letter remains |
| LanguageClass.Lower | src/components/code-editor.tsx:77 | lower-casing keeps the length, leaves no upper-case ASCII letter, turns each upper-case letter into its lower-case form and keeps every other character |
| LanguageClass.LowerIdempotent | src/components/code-editor.tsx:77 | lower-casing twice equals lower-casing once |
| LanguageClass.GetLanguageClass | src/components/code-editor.tsx:63-78 | the class always starts with `language-` and names something after it |
| LanguageClass.LanguageMapShape | src/components/code-editor.tsx:64-75 | the table has exactly the ten lower-case names as keys, each mapped to `language-` plus its key |
| LanguageClass.LanguageClassCases | src/components/code-display.tsx:11-26 | a known lower-cased name gives `language-` plus that name; any other gives `language-text` |
| LanguageClass.LanguageClassIgnoresCase | src/components/code-display.tsx:25 | the class does not depend on letter case |
| LanguageClass.ExerciseOptionClasses | src/app/code-exercise/page.tsx:161-170 | of the selector's ten options, eight get the class of their own lower-case name, while C++ and C# get `language-text`, since the table's keys are `cpp` and `csharp` |
| LanguageClass.PropertyRead | src/components/code-editor.tsx:77 | among lower-case keys, a table key reads its class, only `constructor` and `__proto__` read something outside the table, and everything else reads `undefined` |
| LanguageClass.LanguageClassAsWritten | src/components/code-editor.tsx:77 | the `||` expression is always truthy, and any string it yields is the intended class |
| LanguageClass.ConstructorIsNotAClass | src/components/code-display.tsx:25 | as written, "Constructor" yields the Object constructor, where `language-text` was intended |
| LanguageClass.AsWrittenAgrees | src/components/code-editor.tsx:77 | away from the two inherited names, the code as written returns the intended class |
| LanguageClass.AsWrittenDisagrees | src/components/code-display.tsx:25 | on the two inherited names, the code as written yields no class string, where `language-text` was intended |

## Left out

- Network I/O: fetching the puzzle and the exercise, the request parameters, and the loading and error flags. A load is modelled by its success handler (`LoadSucceeded`, `CodeLoaded`).
- React scheduling: setters are modelled as immediate assignments. Effect dependency tracking is modelled only by `WordSearchGrid.GridState.ReceiveProps`. `onWordFound` is modelled as the returned `notified` word.
- Scoring.RoundPercent: `Math.round` on the floating-point ratio `sameChars / maxLength * 100` is modelled with exact rational arithmetic, rounding half up. A binary rounding error right at a .5 boundary could differ by one.
- Strings are sequences of characters, not UTF-16 code units. Characters outside the Basic Multilingual Plane therefore count once, where JavaScript counts twice.
- LanguageClass.Lower: lower-cases ASCII letters only, not the full Unicode case mapping of `toLowerCase`. Every name in the table and in the language selector is ASCII.
- The editor's scroll syncing, the paste block and its alert, and the `setTimeout` around the caret move: the caret position is returned as data.
- Rendering and styling: class names, the colour band of the result box, the terminal, the typewriter, the falling-code background, the word-list component and the layout. `next.config.mjs` is not part of this model.
- The `direction` field of an answer is carried but never read, as in the source. Cell keys such as `"3-4"` are modelled as `Cell` values in a set, which is equivalent for integer coordinates.
- The grid's parse effect (src/components/word-search-grid.tsx:35-38) clears the selection start and end and the highlighted and found cells, but leaves `isSelecting` as it was. The second click (lines 50-53) ends the selection without clearing `selectionStart`. The model keeps both behaviours.
- An answer whose word is the empty string is matched but neither recorded nor reported, because the code tests the word's truthiness.
- Scoring.ScorePerfect: the rounded score can be 100 without an exact match (for example, 1 differing character in 200 or more). The model keeps that behaviour, so the "¡Perfecto!" message does not imply identical text.
- The editor and the display contain two identical copies of `getLanguageClass`. One model, `LanguageClass.GetLanguageClass`, stands for both.
- The page passes the language already lower-cased, and the lookup lower-cases it again; `LanguageClass.LowerIdempotent` shows this is harmless.

## Findings

| source | as written | input that shows it | evidently intended | confidence | as-written member | corrected member |
|---|---|---|---|---|---|---|
| src/components/code-editor.tsx:77 and src/components/code-display.tsx:25 | `languageMap[lang.toLowerCase()] \|\| "language-text"` reads the object literal's inherited properties, so `constructor` and `__proto__` yield `Object` or `Object.prototype`, not a class string | `"Constructor"` (also `"__proto__"`) | `"language-text"` for any name not in the table | not executed | LanguageClass.LanguageClassAsWritten, LanguageClass.ConstructorIsNotAClass | LanguageClass.GetLanguageClass, LanguageClass.AsWrittenAgrees |
