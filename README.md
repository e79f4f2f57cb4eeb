# Editor view of the portfolio: wrapping and tabs

The portfolio site shows its content in a mock code editor (`vsContainer/vs.tsx`).
This project models the two parts of that component that carry logic.

- **`wrapToWidth`** takes a file's content and breaks it into the display lines of the editor.
  - It splits the text on newlines into paragraphs.
  - A paragraph that is empty or white space only becomes one empty line.
  - Any other paragraph is split on single spaces into words. The words are packed greedily into lines of at most `maxChars` characters.
  - A word longer than `maxChars` is cut into slices `maxChars` wide.

  Module `LineWrap` (`line_wrap.dfy`) contains:
  - specification functions that follow the loops turn by turn (`PlaceWord`, `PackWords`, `WrapParagraph`, `Wrap`);
  - the loop program `WrapToWidth`, proved equal to `Wrap`;
  - lemmas: every line fits, placement rules, paragraph structure, no visible character lost or moved, re-wrapping stability;
  - the character budget that the caller computes from the column width (`CharBudget`).

  Module `Text` (`text.dfy`) gives the JavaScript string operations that the wrapper relies on:
  - the white-space set of `trim` / `trimEnd`;
  - `split` on one character, and its inverse `join`.

- **The explorer and the tab row.**
  - A registry of files (id, label, content).
  - The open tabs, the active file and whether the sidebar is shown.
  - The event handlers `openFile`, `closeTab`, the tab click, the close mark, and the sidebar toggle, collapse and expand.
  - The lookup of the active file with its fallback to the first file.
  - The tab caption and icon.

  Module `Explorer` (`explorer.dfy`) models these:
  - The state is a class, `Workbench`.
  - Each handler is a method and is taken as one atomic transition.
  - `Valid()` is the invariant that every handler keeps:
    - at least one tab is open;
    - no tab is open twice;
    - every tab belongs to a registered file;
    - the active file is open.

A `char` stands for one character of the Basic Multilingual Plane. For such text it coincides with the UTF-16 code unit in which JavaScript's `length`, `slice` and `split` count. `maxChars` is an unbounded integer, at least 1.

One behaviour of the source is modelled as written. Before a long word is sliced, a pending line that is white space only (a lone tab, for instance) is not pushed. It is also not cleared (vs.tsx:19-22), so it stays the pending line after the slices, and later words may join it. `LongWordIsSliced` states this case.

Re-wrapping the output is idempotent only up to lines of white space only. Such a line becomes the empty line when the output is wrapped again, and nothing changes after that (`RewrapIsStable`).

## Model

| member | source | states |
|---|---|---|
| `LineWrap.WrapToWidth` | portfolio/app/vsContainer/vs.tsx:4-43 | The loop program returns exactly `Wrap(text, maxChars)`, and every line it returns has at most `maxChars` characters |
| `LineWrap.PushParagraph` | portfolio/app/vsContainer/vs.tsx:8-41 | One turn of the paragraph loop appends exactly the paragraph's lines: one empty line for a blank paragraph, else the packed words and the non-empty last line |
| `LineWrap.PackWordsInto` | portfolio/app/vsContainer/vs.tsx:17-38 | The loop over words ends with the lines and pending line of `PackWords` over all the words |
| `LineWrap.PlaceWordInto` | portfolio/app/vsContainer/vs.tsx:18-37 | One turn of the word loop pushes exactly `Emitted` and leaves `Pending` as the new line |
| `LineWrap.FlushAndSlice` | portfolio/app/vsContainer/vs.tsx:18-26 | For an over-long word: a non-blank pending line is pushed trimmed, then the slices are pushed; a blank pending line is kept |
| `LineWrap.PushSlices` | portfolio/app/vsContainer/vs.tsx:23-25 | The slicing loop pushes exactly `Slices(w, maxChars)` |
| `LineWrap.SlicesSpellWord` | portfolio/app/vsContainer/vs.tsx:23-25 | The slices concatenate back to the word; each is non-empty and at most `maxChars` wide, and all but the last are exactly `maxChars` wide |
| `LineWrap.WrapFits` | portfolio/app/vsContainer/vs.tsx:18-40 | Every output line has length at most `maxChars`, contains no newline and does not start with a space |
| `LineWrap.LongWordIsSliced` | portfolio/app/vsContainer/vs.tsx:18-26 | For a word longer than `maxChars`, these are pushed in order: the earlier lines unchanged, the trimmed pending line when it is not blank, then slices that spell the word (full width except the last, which is non-empty). Afterwards the pending line is the unchanged blank line when it was blank, and empty otherwise |
| `LineWrap.GreedyPlacement` | portfolio/app/vsContainer/vs.tsx:29-36 | A word of at most `maxChars` joins the line (after one space if the line is non-empty) exactly when the result fits. Otherwise the non-empty line is pushed and the word starts a new one |
| `LineWrap.FullWidthWordStandsAlone` | portfolio/app/vsContainer/vs.tsx:29-35 | A word of exactly `maxChars` characters always becomes the whole pending line |
| `LineWrap.WrapAtNewline` | portfolio/app/vsContainer/vs.tsx:5-8 | Paragraphs are wrapped independently and in order: the lines of `a + "\n" + b` are the lines of `a` followed by those of `b` |
| `LineWrap.BlankParagraphIsOneEmptyLine` | portfolio/app/vsContainer/vs.tsx:12-15 | A paragraph that is empty or white space only gives exactly one empty line |
| `LineWrap.EmptyLineKept` | portfolio/app/vsContainer/vs.tsx:5-15 | An empty line between two texts gives exactly one empty display line between their lines |
| `LineWrap.WrapNotEmpty` | portfolio/app/vsContainer/vs.tsx:5-40 | Every paragraph contributes at least one line, so there are at least as many lines as paragraphs, and at least one |
| `LineWrap.WrapKeepsVisibleText` | portfolio/app/vsContainer/vs.tsx:4-43 | The characters that are not white space come out exactly as they went in, in the same order; wrapping only adds or drops white space |
| `LineWrap.PackWordsVisible` | portfolio/app/vsContainer/vs.tsx:17-38 | The packed lines and the pending line together show the words' non-white-space characters in order |
| `LineWrap.RewrapWellFormed` | portfolio/app/vsContainer/vs.tsx:4-43 | Lines of the shape the wrapper emits, joined with newlines and wrapped again, come back unchanged, except that blank lines become empty |
| `LineWrap.RewrapIsStable` | portfolio/app/vsContainer/vs.tsx:4-43 | Re-wrapping the output gives the output with blank lines emptied. That result is a fixed point, and when no line is white space only it equals the output itself |
| `LineWrap.CharBudget` | portfolio/app/vsContainer/vs.tsx:131-135 | The budget is at least 10. One glyph more than the budget plus the buffer never fits the column; above 10, the budget plus the buffer does fit it, so the budget is the number of average-width glyphs that fit the column, less the buffer (7 px glyphs and 2 spare below a 640 px window, else 8 and 4) |
| `LineWrap.BudgetMonotone` | portfolio/app/vsContainer/vs.tsx:135 | A wider column never gets a smaller budget |
| `Text.TrimEnd` | portfolio/app/vsContainer/vs.tsx:20 | `trimEnd` returns a prefix that does not end in white space, and everything it drops is white space |
| `Text.Split` | portfolio/app/vsContainer/vs.tsx:5-9 | `split` on one character gives at least one piece, no piece holds the separator, and joining the pieces gives the text back |
| `Text.SplitJoin` | portfolio/app/vsContainer/vs.tsx:5 | Splitting on the separator undoes joining pieces that do not contain it |
| `Text.SplitAtSeparator` | portfolio/app/vsContainer/vs.tsx:5 | The pieces of `a + sep + b` are the pieces of `a` followed by the pieces of `b` |
| `Explorer.Find` | portfolio/app/vsContainer/vs.tsx:121 | `files.find` returns nothing exactly when no file has the id; otherwise it returns the first file with that id |
| `Explorer.IconFor` | portfolio/app/vsContainer/vs.tsx:157 | The note icon is shown exactly when the name ends in `.md`, otherwise the page icon |
| `Explorer.TabLabel` | portfolio/app/vsContainer/vs.tsx:394-417 | A tab shows the label of the first file with its id, or the bare id when no registered file has it |
| `Explorer.AddTab` | portfolio/app/vsContainer/vs.tsx:102 | The id is open afterwards. The open tabs keep their order as a prefix, exactly one tab is added when the id was absent, nothing changes when it was present, and no duplicates appear |
| `Explorer.Without` | portfolio/app/vsContainer/vs.tsx:110 | Filtering removes every occurrence of the id and keeps every other tab. It never grows the row, is the identity when the id is absent, and keeps the row duplicate-free |
| `Explorer.WithoutDistributes` | portfolio/app/vsContainer/vs.tsx:110 | Filtering keeps the relative order of the remaining tabs (it distributes over concatenation) |
| `Explorer.CloseNeverEmpties` | portfolio/app/vsContainer/vs.tsx:108-117 | In a duplicate-free, non-empty row other than `[id]`, closing `id` leaves a tab, so the reset to the default tab is unreachable |
| `Explorer.Workbench.constructor` | portfolio/app/vsContainer/vs.tsx:46-98 | Initial state: only the first registry file is open and active, and the sidebar is shown; the invariant holds |
| `Explorer.Workbench.OpenFile` | portfolio/app/vsContainer/vs.tsx:100-104 | Shows the sidebar, adds the tab only if it is absent, and makes the file active. Opening a registered file keeps the invariant |
| `Explorer.Workbench.CloseTab` | portfolio/app/vsContainer/vs.tsx:106-119 | Changes nothing when the row is exactly `[id]`. Otherwise it removes the id, keeps the active file unless that was the one closed, and then activates the last remaining tab or the default. It keeps the invariant, and in a valid state the new row is exactly the filtered row |
| `Explorer.Workbench.PressClose` | portfolio/app/vsContainer/vs.tsx:396-423 | The close mark does nothing while one tab is open, and otherwise closes the tab |
| `Explorer.Workbench.SelectTab` | portfolio/app/vsContainer/vs.tsx:401 | Clicking a tab makes it active and changes nothing else; selecting an open tab keeps the invariant |
| `Explorer.Workbench.ToggleSidebar` | portfolio/app/vsContainer/vs.tsx:212 | Flips the sidebar and changes nothing else |
| `Explorer.Workbench.CollapseSidebar` | portfolio/app/vsContainer/vs.tsx:332 | Hides the sidebar and changes nothing else |
| `Explorer.Workbench.ExpandSidebar` | portfolio/app/vsContainer/vs.tsx:342 | Shows the sidebar and changes nothing else |
| `Explorer.Workbench.ActiveFile` | portfolio/app/vsContainer/vs.tsx:121 | The shown file is a registry file: the first one with the active id when there is one, else the first file. In a valid state it is always the active file |
| `Explorer.Workbench.DisplayLines` | portfolio/app/vsContainer/vs.tsx:151-154 | The editor shows the active file's content wrapped to the budget, and every line fits the budget |
| `Explorer.CloseMiddleTab` | portfolio/app/vsContainer/vs.tsx:100-119 | Open three files, select the middle one and close it: the other two remain in order and the last one is active and shown |

## Left out

- JSX markup, styling and animation in `vs.tsx` are left out. They are presentation and have no behaviour to state.
- The column width measurement is left out. It uses `getBoundingClientRect`, `ResizeObserver`, the window resize listener and `window.innerWidth` (vs.tsx:126-149). These are browser I/O over floating-point pixels, so `CharBudget` takes the column and window widths as natural numbers.
  - The column width is rounded down, which gives the same budget, because `floor(x / n) == floor(floor(x) / n)` for a positive integer `n`.
- The budget of 28 used before the first measurement (vs.tsx:124) is not modelled. `WrapToWidth` and `DisplayLines` take any budget of at least 1.
- `maxChars` below 1 is excluded by a requires. The slicing loop of the source would not terminate for it. The caller's budget is always at least 10 (`CharBudget`).
- The registry contents (vs.tsx:48-94, built with `JSON.stringify`) are left out. The registry is any non-empty sequence of file descriptors.
  - `content ?? ""` (vs.tsx:152) becomes plain `content`, because a descriptor always has a content string.
- `page.tsx`, `icon.tsx` and `layout.tsx` are not part of this model.
  - `page.tsx` is a download counter over `Math.random` and `localStorage`, number formatting in floating point, a `mailto:` form and animations.
  - `icon.tsx` is image generation through a library.
  - `layout.tsx` is font loading and the page wrapper.
- React state batching and render scheduling are left out. Each handler is one atomic transition.
  - `closeTab` reads `activeFileId` from the render in which it was called. The model reads the current state, which is the same when handlers do not interleave.
- `onBack` and the `fullPage` prop only choose markup, so they are left out.
- Strings are sequences of Dafny `char`s, which cannot be surrogates. The model covers text of the Basic Multilingual Plane, where code units and characters coincide. Text with characters outside it, such as emoji, is left out, and so is the source's hard split (vs.tsx:23-24) cutting a surrogate pair in half. Unicode normalisation and grapheme clusters play no part, as they do not in the source.
- The icons are the two values `Note` and `Page`, not the emoji characters.
