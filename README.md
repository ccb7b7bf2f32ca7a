# XML Cooktop, modelled in Dafny

XML Cooktop is an Electron editor for XML and XSLT documents. This project models the parts of it that hold logic of their own, and proves properties about them:

- **`vkbeautify.xml`** (renderer/js/vkbeautify.js), the XML "pretty printer" the window loads as `window.vkbeautify` (line 26). None of the modelled code calls it. The Format command of the editor runs Monaco's `editor.action.formatDocument` (renderer/js/app.js:676-681), and the Cooktop window uses `window.xmlFormatter` with the same fallback (renderer/js/cooktop.js:920-972). The function is modelled as the code is written. The line classifier on lines 13-17 has no braces, so its last `else` binds to `if (pad != 0)`. The one branch that would indent therefore needs a line that starts both with `</x` and with `<x`, and no line does. The depth counter `pad` stays 0, and no indentation is ever written. What the function really does is `Format`: it puts CR LF between every `>` and the `<` after it, writes every line break as CR LF, and trims both ends. The library presents itself as an indenting pretty printer; the code does not indent, and the model follows the code. Module `VkBeautify`.
- **The editor registry of the single-window editor** (renderer/js/app.js). This covers:
  - the `editors` Map, modelled as a sequence of key/value pairs in insertion order;
  - the `unsavedChanges` Set;
  - the active editor and the active path;
  - how `createEditor`, `switchToEditor`, `closeTab`, `saveFile` and `saveFileAs` update them;
  - the pure helpers `getLanguageFromExtension` and the basename split.

  Module `EditorRegistry`.
- **The three-pane window** (renderer/js/cooktop.js). This covers:
  - the default save names;
  - where `openFileByPath` loads a file;
  - the guards of `runXSLT` and `saveOutput`;
  - the HTML detection of the output preview;
  - the `currentPane`, `currentFiles` and `hasUnsavedChanges` fields, as `saveFile`, `openFileByPath`, `newDocument` and the editor listeners change them.

  Module `Cooktop`.
- **The `validate-xml` handler** (main.js). It turns the validator's answer into the `{success, valid, error, line, col}` record sent back to the window. Module `Validation`.

Module `Text` models the ECMAScript string operations all of these rely on: `trim`, `includes`, `toLowerCase`, `split(sep).pop()` and `split(/\r?\n/)`. Module `Wrappers` holds `Option` and `Result`.

Things the program gets from outside become parameters:
- what a dialog returns;
- whether a read or a write succeeds;
- the answer to `confirm`;
- which DOM elements exist;
- the validator's result;
- the editor instance Monaco creates.

## Model

| member | source | states |
|---|---|---|
| VkBeautify.Xml | renderer/js/vkbeautify.js:5-24 | The loop keeps `pad` at 0 and the output so far equal to the lines seen so far, each followed by CR LF. The result equals `Format(text)` for every `indent`, so the indent argument never matters. |
| VkBeautify.IndentBranchUnreachable | renderer/js/vkbeautify.js:13-17 | No line both starts with a closing tag `</x` and matches the opening-tag pattern, so `indentLevel = 1` is never executed. |
| VkBeautify.Padding | renderer/js/vkbeautify.js:18-19 | The padding loop yields `pad` copies of the indent unit, whose length is `pad` times the length of the unit. |
| VkBeautify.InsertBoundariesNoBoundary | renderer/js/vkbeautify.js:7-8 | After the replace, no `>` is immediately followed by `<`. |
| VkBeautify.InsertBoundariesConcat | renderer/js/vkbeautify.js:7-8 | On `x + y` the replace is the replace on `x`, then the replace on `y`. CR LF goes between them exactly when `x` ends with `>` and `y` starts with `<`, and nothing else is inserted. So every `><` gets exactly one CR LF. |
| VkBeautify.InsertBoundariesIdentity | renderer/js/vkbeautify.js:7-8 | The replace leaves text unchanged exactly when the text has no `><`. |
| VkBeautify.VisibleInsertBoundaries | renderer/js/vkbeautify.js:7-8 | The replace adds only whitespace: the non-whitespace characters are the same, in the same order. |
| VkBeautify.NormalizeBreaksSound | renderer/js/vkbeautify.js:11-20 | After the lines are rejoined with CR LF, every LF is part of a CR LF, and no `><` is created. |
| VkBeautify.NormalizeBreaksIdentity | renderer/js/vkbeautify.js:11-20 | Rejoining changes the text exactly when it has an LF not preceded by CR; a lone CR stays inside its line. |
| VkBeautify.SplitThenTerminate | renderer/js/vkbeautify.js:11-20 | Splitting on `/\r?\n/` and writing each piece followed by CR LF gives the text with every line break written as CR LF, plus one final CR LF. |
| VkBeautify.VisibleNormalizeBreaks | renderer/js/vkbeautify.js:11-20 | Rewriting the line breaks adds only whitespace. |
| VkBeautify.TrimKeepsShape | renderer/js/vkbeautify.js:23 | The final trim creates no `><` and no bare LF. |
| VkBeautify.FormatVisible | renderer/js/vkbeautify.js:7-23 | Only whitespace changes: the non-whitespace characters of the output are those of the input, in order. |
| VkBeautify.FormatEmptyIff | renderer/js/vkbeautify.js:23 | The output is `""` exactly when the input is empty or all whitespace. |
| VkBeautify.FormatShape | renderer/js/vkbeautify.js:7-23 | The output has no `><`, only CR LF line breaks, and no whitespace at either end. |
| VkBeautify.FormatIdempotent | renderer/js/vkbeautify.js:7-23 | Beautifying beautified text changes nothing. |
| Text.Trim | renderer/js/vkbeautify.js:23 | `trim` gives a result without whitespace at either end. The result is a slice of the input, and everything outside the slice is whitespace. |
| Text.TrimUnique | renderer/js/vkbeautify.js:23 | Any such trimmed slice is the result of `trim`. |
| Text.TrimTrimmed | renderer/js/vkbeautify.js:23 | Trimming text without whitespace ends changes nothing. |
| Text.TrimAppendWhitespace | renderer/js/vkbeautify.js:20-23 | A trailing CR LF, or any other whitespace, never reaches the trimmed result. |
| Text.TrimEmptyIff | renderer/js/cooktop.js:753 | `!s.trim()` holds exactly when `s` is all whitespace. |
| Text.VisibleCore | renderer/js/vkbeautify.js:23 | Cutting whitespace off the ends keeps every non-whitespace character. |
| Text.ContainsInCore | renderer/js/cooktop.js:1329-1335 | A pattern without whitespace occurs in the trimmed text exactly when it occurs in the whole text. |
| Text.LowerCore | renderer/js/cooktop.js:1329-1335 | Lowering case keeps the whitespace in place, so lowering and trimming commute. |
| Text.AfterLast | renderer/js/app.js:706 | `split(sep).pop()` is the suffix after the last separator: it contains no separator, and it is the whole string when there is none. |
| Text.LastSegmentUnique | renderer/js/app.js:706 | That suffix is the only string with these properties, in both directions. |
| Text.LowerLastSegment | renderer/js/app.js:706 | Lowering case after splitting is lowering before splitting, for separators that are not letters. |
| Text.SplitLines | main.js:343 | `split(/\r?\n/)` gives at least one piece, and no piece contains LF. |
| Text.SplitLinesCount | main.js:343 | The number of pieces is one more than the number of LFs. |
| EditorRegistry.Get | renderer/js/app.js:453 | `map.get(k)` is undefined exactly when `k` is not a key. Otherwise it is a value stored under `k`. |
| EditorRegistry.GetUnique | renderer/js/app.js:453 | With distinct keys, `get` returns the one value stored under the key. |
| EditorRegistry.Put | renderer/js/app.js:418-424 | `map.set`: the key then maps to the new value, and every other key keeps its value. |
| EditorRegistry.PutKeys | renderer/js/app.js:418-424 | `map.set` keeps the key order: an existing key keeps its place, and a new key goes last. |
| EditorRegistry.PutDistinct | renderer/js/app.js:418-424 | `map.set` never duplicates a key. |
| EditorRegistry.Remove | renderer/js/app.js:549 | `map.delete(k)` removes `k` and only `k`. The remaining keys keep their insertion order and their values, and keys stay distinct. |
| EditorRegistry.RemoveLength | renderer/js/app.js:549 | With distinct keys, deleting a present key removes exactly one entry. |
| EditorRegistry.RemoveFirst | renderer/js/app.js:554-556 | After a delete, the first key in insertion order is the first key that was not deleted. |
| EditorRegistry.MoveEntry | renderer/js/app.js:374-377 | Set-then-delete moves the value from the old key to the new one and leaves other keys alone. In every case, the same path included, the other keys keep their order; the new key goes last unless it was already a key, in which case it keeps its place. When both paths are the same, the entry is lost. |
| EditorRegistry.MoveKeys | renderer/js/app.js:374-377 | The key order after `set(to, v)` and then `delete(from)`: the old keys other than `from`, in their order, then `to` when it was not a key. |
| EditorRegistry.LanguageFromExtensionCases | renderer/js/app.js:705-716 | The language is `xsl` exactly when the lowercased text after the last `.` (the whole name without a dot) is `xsl` or `xslt`; it is `xml` otherwise. |
| EditorRegistry.Basename | renderer/js/app.js:324 | The basename is a suffix of the path that contains neither `/` nor `\`, and that starts right after one of them or at the start. |
| EditorRegistry.SuggestedSaveName | renderer/js/app.js:362 | The dialog offers the basename of a truthy active path, and `untitled.xml` otherwise. |
| EditorRegistry.SavedAsUnsaved | renderer/js/app.js:379-380 | After a "save as", neither the old nor the new path is unsaved, and every other unsaved path stays unsaved. |
| EditorRegistry.Registry.constructor | renderer/js/app.js:4-10 | The registry starts with no editors, no active editor or path, and no unsaved paths. |
| EditorRegistry.Registry.SwitchToEditor | renderer/js/app.js:443-467 | A known path becomes active with its editor. An unknown path changes nothing. |
| EditorRegistry.Registry.CreateEditor | renderer/js/app.js:394-441 | The entry is stored under `filePath`, or under `fileName` when `filePath` is falsy. That key becomes active, and the unsaved set is untouched. |
| EditorRegistry.Registry.OnContentChanged | renderer/js/app.js:427-430 | A content change adds the listener's path to the unsaved set. |
| EditorRegistry.Registry.SaveFileAs | renderer/js/app.js:358-391 | Without an active editor nothing happens and no dialog is shown. After a successful write, the entry moves to the chosen path, which becomes active, and both paths are clean. A cancel or a failed write changes nothing. |
| EditorRegistry.Registry.Rename | renderer/js/app.js:370-380 | The bookkeeping after the write: the active path becomes the new path, the entry moves when the old path was a key, and both paths are marked clean. |
| EditorRegistry.Registry.SaveFile | renderer/js/app.js:337-356 | Without an active editor or path, this is `saveFileAs`. Otherwise a successful write marks the active path clean and changes nothing else. |
| EditorRegistry.Registry.CloseTab | renderer/js/app.js:527-564 | An unknown path, or an unsaved path the user does not confirm, changes nothing. Otherwise the path leaves the map, which shrinks by exactly one entry, and the unsaved set. Closing the active path activates the first remaining key, or clears both active fields; closing another path keeps the active one. |
| Cooktop.DefaultSaveTarget | renderer/js/cooktop.js:1141-1151 | Each pane's default name ends with the pane's extension. |
| Cooktop.SaveCheck | renderer/js/cooktop.js:1128-1151 | A dialog is offered exactly when the current pane has an editor and is not `output`. A missing editor is reported first; an existing editor on the `output` pane gets the output refusal. The name offered is `document.xml`, `transform.xsl` or `untitled.txt`. |
| Cooktop.DefaultNameRoutesBack | renderer/js/cooktop.js:1109-1151 | A file saved under the XML or XSLT pane's default name is routed back to that pane by extension. `untitled.txt` is routed nowhere. |
| Cooktop.FileNameOf | renderer/js/cooktop.js:1100 | The file name is the text after the last `/` when that is non-empty, and otherwise the text after the last `\`. |
| Cooktop.RouteByExtensionCases | renderer/js/cooktop.js:1109-1116 | Routing by the lowercased text after the last `.`: `xml` goes to the XML pane, `xsl` or `xslt` to the XSLT pane, and anything else nowhere. Each case holds in both directions. |
| Cooktop.RunGuardCases | renderer/js/cooktop.js:753-767 | The transform runs exactly when neither input is all whitespace. A blank XML input is reported before a blank XSLT input. |
| Cooktop.MarkerIgnoresTrim | renderer/js/cooktop.js:1329-1335 | A tag marker is found in the trimmed, lowercased output exactly when it is found in the lowercased output. |
| Cooktop.PageMarkersIgnoreTrim | renderer/js/cooktop.js:1330-1335 | The same holds for `<html`, `<table` and `<body` together. |
| Cooktop.BlockMarkersIgnoreTrim | renderer/js/cooktop.js:1332-1334 | The same holds for `<div`, `<h1` and `<h2` together. |
| Cooktop.PreviewOfCases | renderer/js/cooktop.js:1313-1382 | Stated on the untrimmed output, each in both directions:<br>- a placeholder exactly for blank output;<br>- the output as a document exactly when it contains `<html`;<br>- wrapped in a document when it has another of the six markers;<br>- shown as text otherwise. |
| Cooktop.SaveOutputPlan | renderer/js/cooktop.js:1177-1188 | A dialog is offered exactly when the output is present and not blank. The name is `output.html` on the preview tab and `output.xml` otherwise. |
| Cooktop.CooktopState.constructor | renderer/js/cooktop.js:4-16 | The window starts on the XML pane with no editors, no file names and no unsaved changes. |
| Cooktop.CooktopState.CreatePaneEditor | renderer/js/cooktop.js:162-211 | The pane gets an editor. Nothing else changes. |
| Cooktop.CooktopState.OnContentChanged | renderer/js/cooktop.js:181-186 | A content change marks the document unsaved. |
| Cooktop.CooktopState.FocusPane | renderer/js/cooktop.js:189-200 | Focusing or clicking an editor makes its pane current. |
| Cooktop.CooktopState.SwitchPane | renderer/js/cooktop.js:689-719 | The pane becomes current only when its pane and tab elements exist. |
| Cooktop.CooktopState.NewDocument | renderer/js/cooktop.js:1027-1050 | With both input editors present, both file names become null, the document becomes clean, and the `source` pane is switched to when it exists. With only the XML editor, the first `setValue` marks the document unsaved before the second throws. Without the XML editor nothing changes. |
| Cooktop.CooktopState.OpenFileByPath | renderer/js/cooktop.js:1095-1125 | The file name goes to the current pane when that pane has an editor. Otherwise it goes to the pane its extension routes to, when that pane has an editor. Loading a pane marks the document unsaved, because `setValue` fires the content-change listener. A failed read changes nothing. |
| Cooktop.CooktopState.SaveFile | renderer/js/cooktop.js:1127-1171 | The refusal or the offered name is `SaveCheck`'s. A successful write records the chosen path for the pane and clears the unsaved flag. Anything else changes nothing. |
| Cooktop.CooktopState.SaveFileAs | renderer/js/cooktop.js:1173-1175 | It behaves exactly as `saveFile`. |
| Cooktop.CooktopState.SaveOutput | renderer/js/cooktop.js:1177-1183 | The output content is never assigned in the class, so `saveOutput` always stops at "No output to save". |
| Validation.MapValidation | main.js:320-356 | Summary: `success` equals `valid`, and both hold exactly for a `true` result. The full contract:<br>- `error` is absent exactly for a `true` result;<br>- `line` and `col` are present exactly for an invalid result with an `err` object;<br>- when present, they equal `Position`;<br>- an exception yields its message;<br>- an invalid result with `err` yields `msg + " (line L, col C)"`, with the same `L` and `C` as the returned `line` and `col`;<br>- an invalid result without `err` yields the TypeError message of reading `msg` of `undefined`. |
| Validation.PositionCases | main.js:324-345 | The three-way fallback:<br>- numeric `err.line` and `err.col`;<br>- else a numeric `linePos.line`, with `linePos.col` or 1 when it is falsy;<br>- else a numeric `err.col`, with the line being 1 plus the number of LFs in the first `col` characters;<br>- else line 1, col 1. |
| Validation.ColumnLineInRange | main.js:340-344 | A line computed from a column is between 1 and the number of lines of the content. |
| Validation.SlicePrefix | main.js:342 | `slice(0, n)` is a prefix of the content. Its length is `n` clamped to the content's length, and a negative `n` counts from the end. |
| Validation.Digits | main.js:350 | A number is written with decimal digits and no leading zero. |
| Validation.DigitsRoundTrip | main.js:350 | Reading back the written digits gives the number. |

## Left out

- Monaco, the DOM and the event wiring are left out: tabs, status bar, modals, the welcome screen, the template tree, cursor tracking and keyboard shortcuts. They are UI. The answers the program reads from them are parameters.
- File I/O, dialogs, IPC and the preload bridge are left out. A dialog's choice and a write's success are parameters. A rejected promise caught by a `catch` block is treated as a failed write, which changes no state.
- Validation.SlicePrefix and Validation.Position: strings here are sequences of code points, while JavaScript strings are sequences of UTF-16 code units. `slice(0, col)` counts code units. With characters outside the Basic Multilingual Plane before the error, such as emoji, the model's prefix reaches further, can count more LFs and give a different line. Lone surrogates cannot be represented at all.
- EditorRegistry.Registry.SaveFile, EditorRegistry.Registry.SaveFileAs, Cooktop.CooktopState.SaveFile: each is modelled as one step, without interleaving. The source reads `activeFilePath` (renderer/js/app.js:347, 371) and `currentPane` (renderer/js/cooktop.js:1161) again after its `await`s. A tab switch or focus change while a write is pending would make it rename or record a different entry from the one whose content was written. The model does not capture this.
- The timer and re-entrancy flags `_switchingTab` and `_isRefreshingPreview` are left out, as is the template debounce. They depend on the ordering of the event loop.
- XSLT engines and the XML validator itself are not part of this model. Only the mapping of the validator's result is modelled.
- Editor contents are not modelled. The content-change listener that `setValue` fires is modelled; only the text itself is left out.
- The `element` field of editor entries is left out; it only affects what is displayed. `originalContent` is kept in `EditorData`, but the program stores it and never reads it (renderer/js/app.js:423): tab titles come from the unsaved set (renderer/js/app.js:519-522).
- `openFile` in both windows, which reads a file picked in a file input, is left out. It is DOM-driven and repeats the routing modelled for `openFileByPath`.
- Text.ToLower: lowercases only ASCII letters. The program compares the result only with ASCII literals, so the other case mappings of `toLowerCase` are left out.
- Validation.Render: whole numbers only, and exact only below 10^21. JavaScript writes larger numbers in exponent form (`String(1e21)` is `"1e+21"`). Non-integer numbers and their printing are left out.
- Property names such as `constructor` or `__proto__`, which a plain JavaScript object inherits from its prototype, are left out. They matter for `this.editors[pane]` and `this.currentFiles[pane]` with a pane named after one.
- EditorRegistry.Registry.OnContentChanged: the listener keeps the path under which the editor was created. After a "save as" rename, it marks the old path unsaved. This is documented only: the method takes the captured path as a parameter, and the model does not record which path each editor's listener holds, so no contract states it.
- The indentation vkbeautify was meant to produce is not modelled, because the code as written never produces it.
- renderer/js/cooktop-simple.js and test-core.js are not part of this model. They are an alternative UI and a smoke script for third-party libraries.
