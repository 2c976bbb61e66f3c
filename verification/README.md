# cazary, modelled in Dafny

cazary turns a textarea into a WYSIWYG editor. The editor has a toolbar of
formatting commands, floating panels for fonts, colours, images and links,
and a switch to the HTML source view. This project models the logic of
`src/cazary.js` and of the translation-data generator `i18n/translate.py`.
The DOM and the browser are left out. Each file holds one module:

- `wrappers.dfy` (`Wrappers`): the `Option` type.
- `text.dfy` (`Text`): characters and strings as the source uses them:
  - `toLowerCase`, modelled as folding only the ASCII capitals and the
    Kelvin sign, which is enough for every comparison the widget makes;
  - `\w`, read as ASCII;
  - `indexOf`, `split(" ")` and joining.
- `sequences.dfy` (`Sequences`): `Map` and `FilterMap` over sequences, with
  their laws.
- `commands.dfy` (`Commands`): the command vocabulary, which is the keys of
  `ASSOC_COMMANDNAMES`; the lookup of a token among them; and the native
  command that `_execCommand` issues, which is `hilitecolor` in place of
  `backcolor` when the engine can execute it.
- `validators.dfy` (`Validators`): `checkEmail` and `checkURL`. The e-mail
  pattern is a recogniser. Its two halves are proved equal to plain
  descriptions of a local part and a domain.
- `translation.dfy` (`Translation`): the gettext-like `_`. The table is the
  exact locale's, else the base language's, else empty. A missing text
  translates to itself.
- `markup.dfy` (`Markup`): the four case-insensitive tag rewrites of
  `_getValue` (`p`→`div`, `em`→`i`, `strong`→`b`, `del`→`s`), as a
  left-to-right regular-expression scan.
- `status.dfy` (`CommandStatus`): `_getCurrentStatus`, as imperative
  methods.
  - The prechecks disable the link and history commands.
  - A loop walks the node chain from the selection outwards and switches
    toggles to active.
  - The font and colour slots take the innermost non-empty value.
- `layout.dfy` (`Layout`): `createCommandsWrapper` and the pre-defined
  macros. Rows are split into tokens, `|` becomes the separator, and
  unknown tokens are dropped.
- `panels.dfy` (`Panels`):
  - what the link and image panels' `onsubmit` hand to the command;
  - the `onupdate` preview guard, as a pure step.
- `controller.dfy` (`Controller`): the UI state.
  - A `Page` class holds the one page-wide panel and the
    `cazary-active`/`cazary-disabled` classes of every toolbar item.
  - A `Widget` class holds each editor's body and textarea value.
  - Its methods are the mode switches, `_execCommand`,
    `_updateCommandStatus` and the click handlers.
  - HTML mode is not stored. As in `_isHtmlMode`, it is read off the
    `cazary-active` class of the widget's source item.
- `translation_data.dfy` (`TranslationData`):
  - `parse_file`, as a loop over the lines that builds the table;
  - the file-name filter of `get_files`.

Two behaviours of the code are easy to miss:

- **Two toggles of the source view do not always give the body back.**
  Entering the HTML view stores the normalised body in the textarea
  (`_setHtmlMode`, src/cazary.js:916-926), and leaving it loads that
  back. Two toggles therefore leave `Normalize(body)`. This equals the old
  body only when the body was already normal (`Controller.RoundTrip`).
- **A toolbar without a source item never reads as HTML mode.** `_isHtmlMode`
  (src/cazary.js:942-945) reads the mode off the source item's class, so
  such a widget stays in rich-text mode even after `_setHtmlMode`
  (`Controller.Widget.SetHtmlMode`).

## Model

| member | source | states |
|---|---|---|
| Text.ToLower | src/cazary.js:1514 | In the model's reading of lower-casing (ASCII capitals and the Kelvin sign), the result has the input's length, maps each character through the case fold, and leaves no ASCII capital behind. |
| Text.ToLowerIdentity | src/cazary.js:1514 | Text without ASCII capitals or the Kelvin sign is left unchanged by lower-casing. |
| Text.IndexOf | src/cazary.js:93 | The result is -1 exactly when the character is absent. Otherwise it is the position of its first occurrence. |
| Text.SplitPiecesFree | src/cazary.js:1514 | No piece of a split contains the separator. |
| Text.SplitJoin | src/cazary.js:1514 | Splitting pieces joined by a separator they lack gives the pieces back. |
| Commands.Lookup | src/cazary.js:1517-1526 | A token is found only under the identifier that is exactly that token. |
| Commands.LookupName | src/cazary.js:644-682 | Every command's identifier is found, and it is found as that command. |
| Commands.NativeName | src/cazary.js:245-254 | The issued command is `hilitecolor` iff the command is backcolor and hilitecolor is executable. Otherwise it is the command's own identifier. |
| Validators.EmailLengthLimits | src/cazary.js:88-97 | An address longer than 256 characters is rejected. So is one whose first `@` lies beyond position 64. |
| Validators.LongestLocalPartAccepted | src/cazary.js:93-97 | A well-formed local part of exactly 64 characters with a well-formed domain is accepted. |
| Validators.WellFormedEmailAccepted | src/cazary.js:84-103 | Any well-formed local part, `@` and well-formed domain within both limits is accepted. |
| Validators.AcceptedEmailShape | src/cazary.js:84-102 | An accepted address fits the length limit and has exactly one `@`. The part before it is non-empty, has no leading or trailing dot and no double dot. The part after it has a dot and ends in a word character. |
| Validators.AtomTailIsDottedAtoms | src/cazary.js:84 | The pattern's `(\.?ATOM)*` matches exactly the atom-and-dot strings with no trailing dot and no two dots in a row. |
| Validators.LocalPartIsWellFormed | src/cazary.js:84 | The pattern's local part matches exactly the described local parts. |
| Validators.DomainPartIsWellFormed | src/cazary.js:84 | The pattern's domain matches exactly the described domains: two or more dot-separated labels, the last of word characters. |
| Validators.DomainHasNoAt | src/cazary.js:84 | A matched domain contains no `@`. |
| Validators.DomainEndsInWordChar | src/cazary.js:84 | A matched domain is non-empty and ends in a word character. |
| Validators.EmailIsNotURL | src/cazary.js:82-123 | No string passes both `checkEmail` and `checkURL`. |
| Validators.NoColonBeforeAt | src/cazary.js:84-102 | In an accepted address, every `:` and `@` lies at or after the first `@`. |
| Translation.BaseLanguage | src/cazary.js:48-49 | The base language is a dash-free prefix of the tag that ends at the tag's first dash. It is the whole tag when the tag has no dash. |
| Translation.ExactTagWins | src/cazary.js:39-45 | When the catalogue has the exact tag and its table holds the text, the translation is that table's entry. |
| Translation.NoPerTextFallback | src/cazary.js:39-57 | When the catalogue has the exact tag, a text missing from that table translates to itself, even if the base language's table has it. |
| Translation.TranslationOrigin | src/cazary.js:24-57 | Every translation is either the text itself or the entry for that text in the table of the exact tag or of its base language. |
| Translation.RegionFallsBackToLanguage | src/cazary.js:39-57 | For a tag the catalogue lacks, the chosen table is the one for its base language. |
| Translation.UntranslatedIsIdentity | src/cazary.js:24-57 | A text no table translates comes back unchanged, whatever the locale. |
| Markup.RewriteClean | src/cazary.js:286-289 | After one replacement pass, no tag of the replaced name is left. A name already absent stays absent, as long as it is not the replacement. |
| Markup.RewriteKeepsClean | src/cazary.js:286-289 | A pass over markup without the tag changes nothing. |
| Markup.NormalizeRemovesLegacyTags | src/cazary.js:280-292 | The value holds no opening or closing `p`, `em`, `strong` or `del` tag, in any case. |
| Markup.NormalizeKeepsModernMarkup | src/cazary.js:280-292 | Markup without those four tags comes back unchanged. |
| Markup.NormalizeIdempotent | src/cazary.js:280-292 | Normalising twice gives the same as normalising once. |
| Markup.NormalizeText | src/cazary.js:280-292 | Text without `<` comes back unchanged. |
| Markup.NormalizeExample | src/cazary.js:286-289 | `<p>hi</p>` reads back as `<div>hi</div>`. |
| CommandStatus.TagMark | src/cazary.js:352-392 | A tag name switches on only toggle commands. |
| CommandStatus.AlignMark | src/cazary.js:413-431 | An alignment value switches on only the justify toggles. |
| CommandStatus.FaceMarks | src/cazary.js:447-482 | font-weight, font-style and text-decoration switch on only bold, italic, underline and strike-through. |
| CommandStatus.PlacementMarks | src/cazary.js:502-539 | vertical-align and text-align switch on only toggles. |
| CommandStatus.OfferedSlot | src/cazary.js:393-500 | A node offers values only for the font name, font size and the two colours, and never an empty string. |
| CommandStatus.ApplyTag | src/cazary.js:351-408 | A node's tag activates its toggle, if any. A `font` tag fills each still-empty slot from its non-empty face, size or color. |
| CommandStatus.ApplyAlign | src/cazary.js:410-432 | The `align` attribute activates its justify command and changes nothing else. |
| CommandStatus.ApplyFontStyle | src/cazary.js:436-482 | Inline font-family fills an empty font-name slot. Weight, style and decoration activate their toggles. |
| CommandStatus.ApplyColorStyle | src/cazary.js:484-500 | Inline color and background-color fill their empty slots. |
| CommandStatus.ApplyPlacementStyle | src/cazary.js:502-539 | vertical-align and text-align activate their toggles. |
| CommandStatus.ApplyStyle | src/cazary.js:434-540 | The inline style activates its marks. Each empty slot takes the style's non-empty font-family, color or background-color. |
| CommandStatus.ApplyNode | src/cazary.js:349-541 | One node activates exactly its marks. Each empty slot takes the node's offer, with its `font` attributes ahead of its inline style. |
| CommandStatus.ActivatedTwice | src/cazary.js:349-543 | Two activation steps in a row are one activation by the union of their marks. |
| CommandStatus.Prechecks | src/cazary.js:306-345 | Before the walk, every command is normal. The exceptions are disabled: createlink and unlink with no selection, and any guarded command the engine cannot execute. |
| CommandStatus.DisableUnexecutable | src/cazary.js:340-345 | Each guarded command the engine cannot execute becomes disabled. Nothing else changes. |
| CommandStatus.Walk | src/cazary.js:348-543 | The walk activates exactly the commands some node marks. Each slot holds the innermost node's offer. |
| CommandStatus.CurrentStatus | src/cazary.js:304-552 | A toggle is active iff some node on the chain marks it, and is otherwise normal, never disabled. A guarded command is disabled iff it cannot run or is a link command without a selection, and is otherwise normal, never active. Each value slot holds the innermost offered value. |
| CommandStatus.MarkedAll | src/cazary.js:348-543 | The union of all nodes' marks is exactly the set of commands some node marks. |
| CommandStatus.InnermostAppend | src/cazary.js:348-543 | Outer nodes fill only slots the inner nodes left empty. |
| CommandStatus.InnermostOffered | src/cazary.js:348-543 | A filled slot is a value slot holding a non-empty value that some node offered. |
| CommandStatus.FirstOfferWins | src/cazary.js:348-543 | The innermost node offering a value decides the slot. |
| CommandStatus.InnermostEmpty | src/cazary.js:348-543 | A slot stays null iff no node offers a value for it. |
| Layout.TokenCommand | src/cazary.js:1517-1526 | A token gives a command only if it is `|` or that command's identifier. `|` gives the separator. |
| Layout.TokenLookup | src/cazary.js:1517-1526 | Replacing `|` by `separator` and looking the token up yields the token's command. |
| Layout.BuildToolbar | src/cazary.js:1498-1545 | A macro name gives exactly that macro's commands, row by row. Any other string gives a single row of its own commands. An array gives one item list per row, in order, each holding that row's commands. |
| Layout.BuildRows | src/cazary.js:1511-1544 | The loop over the rows yields one item list per row, in order, each holding that row's commands. |
| Layout.BuildRow | src/cazary.js:1513-1542 | A row's items are its lower-cased tokens' commands, in order. Unknown and empty tokens are dropped. |
| Layout.RowFromTokens | src/cazary.js:1513-1542 | Every item comes from some token of its row. A row never has more items than tokens. |
| Layout.KeepAppend | src/cazary.js:1513-1542 | The items of two runs of tokens are the first run's items followed by the second's. |
| Layout.RowOfSpellings | src/cazary.js:1514-1526 | A row written out from commands, separated by single spaces, reads back as exactly those commands. |
| Layout.MacroToolbar | src/cazary.js:694-709 | Each row of a pre-defined macro gives exactly the commands listed for it. |
| Layout.FullOffersAll | src/cazary.js:700-707 | The FULL macro offers every command. |
| Panels.LinkTarget | src/cazary.js:1319-1334 | The link panel issues a command iff its input is an e-mail address or a web address. |
| Panels.ImageSource | src/cazary.js:1212-1223 | The image panel issues a command iff its input is a web address. |
| Panels.LinkTargetCases | src/cazary.js:1319-1334 | The link gets a `mailto:` prefix iff the input is an e-mail address. It is kept as typed iff the input is a web address. |
| Panels.LinkTargetValid | src/cazary.js:1319-1334 | Every link created is a web address, or `mailto:` followed by an accepted e-mail address. |
| Panels.LinkAndImageAgree | src/cazary.js:1319-1334 | On a web address, the link and image panels pass the same text. |
| Panels.UpdateIdempotent | src/cazary.js:1225-1251 | Running the preview update twice on the same value is the same as running it once. |
| Panels.UpdateFaithful | src/cazary.js:1336-1362 | After an update, the preview is shown iff the last value is a web address, and it then shows that address. |
| Panels.UpdatesFollowLast | src/cazary.js:1336-1362 | After any series of field values, the preview follows the latest one: shown iff it is a web address, and then showing it. |
| Controller.ClosedItems | src/cazary.js:1549-1559 | Closing the panel leaves no item of its command active. It touches no other item. |
| Controller.OpenedPanel | src/cazary.js:957-1038 | A click on the open panel's own item closes it. Any other panel command leaves exactly its panel open with its item active. Other items are untouched. |
| Controller.OpenedTwice | src/cazary.js:957-969 | Opening the same panel twice leaves no panel and no active item of that command. |
| Controller.PanelCommandsApart | src/cazary.js:786-799 | A panel command is neither a generic command nor the source switch. The source switch and the separator are in neither list. |
| Controller.Page.DestroyAllPanels | src/cazary.js:1549-1559 | Afterwards no panel is open, the panel command's items are no longer active, and disabled items are unchanged. |
| Controller.Page.OpenPanel | src/cazary.js:957-1038 | The panel and the active items become those `Opened` gives. At most one panel is ever open, always for a panel command. |
| Controller.RoundTrip | src/cazary.js:900-926 | HTML view and back leaves the normalised body in both places. The body is unchanged iff it was already normal. Further round trips change nothing. |
| Controller.Widget.constructor | src/cazary.js:752-784 | A new widget's body and textarea both hold the textarea's value. |
| Controller.Widget.ClassedItems | src/cazary.js:1429-1446 | After a refresh, an item listed in the snapshot carries the class iff its status says so. Items not listed keep their class. |
| Controller.Widget.Refresh | src/cazary.js:1377-1448 | The snapshot holds statuses only for the toggle and guarded commands, as `CommandStatus.CurrentStatus` gives them. The four value slots are skipped, as the loop's `continue`s do. The widget's listed items get the active and disabled classes from the snapshot. The panel and other widgets are untouched. |
| Controller.Widget.SetHtmlMode | src/cazary.js:916-926 | The textarea gets the normalised body. Every other item is disabled. The source item becomes active, so the widget reads as HTML mode. |
| Controller.Widget.SetRteMode | src/cazary.js:900-914 | The body gets the textarea's value. The source item stops being active and the others stop being disabled. The refresh then applies the snapshot. The widget reads as rich-text mode. |
| Controller.Widget.ToggleMode | src/cazary.js:900-945 | Each toggle switches to the other mode with the matching copy of the content. Entering the HTML view disables every item but the source item and marks the source item active. Leaving it removes those classes and applies the snapshot. |
| Controller.Widget.ExecCommand | src/cazary.js:893-898 | Panels are closed, the native command is issued, and the toolbar is refreshed. |
| Controller.Widget.SourceClicked | src/cazary.js:862-867 | The source item's handler switches to the other view with the matching copy of the content and the classes of that view: in the HTML view every other item is disabled and the source item is active, and back in the editor view the snapshot applies. The click then reaches the document's handler (src/cazary.js:714-718), so no panel is left open. |
| Controller.Widget.Click | src/cazary.js:849-891 | A click on a disabled item changes nothing. Otherwise only a generic command issues a native command. Every click except a panel command's reaches the document and leaves no panel open. The source item switches the view, with its content and classes as in `SourceClicked`. A generic command refreshes the classes from the snapshot. A panel command opens or closes its panel and leaves the content and the disabled items alone. A separator only closes the panel. |
| TranslationData.StripLineEnd | i18n/translate.py:54 | The result is a prefix of the line that does not end in CR or LF. Everything removed is CR or LF. |
| TranslationData.SplitAtTab | i18n/translate.py:54 | Splitting fails iff the text has no tab. Otherwise the text is the tab-free first part, a tab, and the rest. |
| TranslationData.SplitTabs | i18n/translate.py:54 | There are one to three pieces, and exactly one iff there is no tab. |
| TranslationData.LineEntry | i18n/translate.py:46-52 | An empty line or a `#` line gives no entry. |
| TranslationData.ParseFile | i18n/translate.py:38-61 | The loop builds the table of the lines' entries, later lines overriding earlier ones. |
| TranslationData.NoTabNoEntry | i18n/translate.py:54-57 | A line with no tab once stripped adds no entry. |
| TranslationData.LineWithTabGivesEntry | i18n/translate.py:46-59 | A non-empty line that does not begin with `#` and still has a tab once stripped adds the first two tab-separated pieces as key and value. With `NoTabNoEntry`, such a line adds an entry exactly when its stripped text has a tab. |
| TranslationData.EntryRead | i18n/translate.py:50-59 | A line made of a key, a tab and a value, then optionally a tab and a further field, then any run of CR and LF, adds exactly that key and value. This covers a last line without a line feed, a CR LF line and a line with a third field. |
| TranslationData.EntryShape | i18n/translate.py:54-59 | An entry is read from the stripped line as key, tab, value, then nothing or a tab and the rest. Neither key nor value holds a tab or a stripped line end. |
| TranslationData.EntryRoundTrip | i18n/translate.py:50-59 | Writing `key<TAB>value<LF>` and parsing it gives the entry back. This holds when the key has no tab and no leading `#`, and the value has no tab and no trailing line end. |
| TranslationData.ParsedKeys | i18n/translate.py:44-61 | The table's keys are exactly the keys of the contributing lines. |
| TranslationData.LastEntryWins | i18n/translate.py:44-61 | A key's value is the one from the last line giving that key. |
| TranslationData.FileLanguage | i18n/translate.py:23-29 | A matched name is a non-empty run of word characters, then `.data`, then an optional final line feed. |
| TranslationData.DataLanguage | i18n/translate.py:23-32 | The template stem `_` never yields a language. |
| TranslationData.DataFileRoundTrip | i18n/translate.py:23-32 | `<lang>.data` yields `lang` for any word-character code other than `_`. |
| TranslationData.DotInStemRefused | i18n/translate.py:23-32 | A stem holding a dot yields no language. |
| TranslationData.DataFiles | i18n/translate.py:17-35 | The languages come out in file order. Non-matching names and the template are skipped. |

## Left out

- The iframe, `designMode`, document writing and `innerHTML` serialisation. The editor body is a plain string, stored as given.
- The native `execCommand` and `queryCommandEnabled`. Executability is a parameter: a set of executable commands, plus a flag for `hilitecolor`.
- The selection APIs, `insertText`, the saved IE text range, `_getCurrentStyle` and `_setFocus`. The selection enters only as the chain of nodes above it and the selected text.
- Browser language detection. The locale is a parameter. An undefined locale would throw in the source.
- Timers and debouncing. The preview update is the body of the delayed callback, taken as one step.
- jQuery event wiring, panel markup, positioning, CSS, captions, the placeholder and the `empty` class.
- `Math.random` instance ids. Widget ids are parameters.
- Items are keyed by widget id and command, so two widgets that share an id share their items. The source keeps each widget's items apart, but its random ids (src/cazary.js:754) can collide. In the model, one such widget's mode switch would then change the mode and the disabled items that the other reads. The panel check compares the id and the command in the source too, so panels behave the same in both.
- Controller.Widget.Refresh: does not model the caption, font and colour swatch updates for the four value slots. Only the `cazary-active` and `cazary-disabled` classes are modelled.
- Font sizes outside 1–7 in the refresh captions.
- Object-prototype keys such as `constructor` that the source's plain-object lookups would find. The lookups know only the listed keys. This affects four lookups:
  - `ASSOC_COMMANDNAMES`, which gives no command for such a token in the model;
  - `PRE_DEFINED_MACROS` (src/cazary.js:1498-1506): the name `constructor` is found there in the source, which gives a toolbar with no rows, while the model gives one empty row;
  - `translation_data[language]` (src/cazary.js:41-51): a locale named like a prototype key would find a non-table in the source, while the model falls back;
  - `current_translation_data[text]` (src/cazary.js:32-36): a text named like a prototype key would find an inherited value in the source, while the model returns the text.
- The panels' list items (font names, sizes, colours). A click on one is `Controller.Widget.ExecCommand` with that command.
- Layout: the macro rows are given as lists of commands. Their strings are the commands spelt out with single spaces, which is the text of the source's table.
- The `mode` option: the caller chooses the initial view after `Controller.Widget.constructor`.
- The initial visibility of the preview fieldset. It is up to the style sheet, so no claim holds before the first update.
- Text.IsWordChar: reads `\w` as ASCII. Python's `\w` in `get_files` also admits non-ASCII letters and digits.
- String lengths count characters, not UTF-16 code units.
- `translate.py`'s `main`, the glob, file opening and JSON printing. `parse_file` takes the file's lines, and `get_files` takes the globbed names.
- The build pipelines, `gulpfile.babel.js` and `gulpfile.js`, are not part of this model.
- Text.ToLower: folds only the ASCII capitals and the Kelvin sign. Other non-ASCII lower-casing that `toLowerCase` performs is not modelled. That lower-casing can also change the length (`İ` becomes `i` and a combining dot). Every comparison the widget makes is against ASCII keywords, and no other character's lower case consists of ASCII letters alone, so none of these comparisons can tell the difference.
- The focus and blur handlers of the editor window (src/cazary.js:838-847). Focus closes the panels and refreshes the classes, and blur copies the body into the textarea. When they fire depends on the browser, and `_setFocus` is not modelled.
- Controller.Widget.Click: a disabled source item is treated like any other disabled item. In the source, the handler bound on the source item itself runs before the disabled check. No operation of the widget ever disables the source item, so this case does not arise from the initial state.
- Controller.Widget.Click: the native command's effect on the body is not modelled, so a generic command leaves the model's body as it was.
