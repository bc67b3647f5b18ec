# bookera-module-cli core, modelled in Dafny

The Bookera module generator is a terminal program. It asks for a module title, a description and
the render modes. It derives the module's names from the title. It then clones a template
repository and templates it, while an animated message shows progress. This project models
the sequential logic of that program:

- `metadata.dfy` (module `Metadata`, main.go): the `Tab` and `ModuleMetadata` records as classes.
  It covers turning the raw title into a human-readable one, the five names derived from the
  title (kebab case, element kebab case, class name, variable name, package name), and
  `hasSidePanel`. `hasSidePanel` answers whether the side-panel tag was chosen, and it also
  replaces the tab with a fresh default one.
- `form.dfy` (module `Form`, form.go): the render-mode tags, the title validator, the
  render-mode validator, and `rotateBlend`. `rotateBlend` shifts a colour cycle one place to
  the right, in place, on an array.
- `progress.dfy` (module `Progress`, gradient_load.go): `MessageGradient` (a message plus its
  colour cycle) and the `Model` that `Init` sets up and `Update` drives. `Update` handles key
  presses, progress reports from the background tasks and animation ticks.
- `strings.dfy` (module `Strings`): ASCII models of the library calls the derivations use:
  `strings.ToLower`, `strings.ReplaceAll` with a one-character pattern, and `cases.Title`.

Behaviour of the code that the model keeps as written:

- The getters only read `moduleTitle`, so they are functions of the title: `mm.getX()` is
  `X(mm.moduleTitle)`.
- `getModuleElementNameKebabCase` spells the kebab expression out again. `ElementKebabCase`
  does the same, and its contract proves that it equals `KebabCase(title) + "-element"`.
- `hasSidePanel` resets the tab on every call, whatever it returns. Nothing keeps "a tab exists
  exactly when the side panel is chosen": after a call the tab is never null.
- `Update` copies the reported step as it is. It does not itself keep the steps in the order
  Cloning, Templating, Done. That order comes from the two background tasks' reports
  (`Report`, `RunPipeline`).
- The suffixes are three characters wide (".  ", ".. ", "..."). While cloning or templating,
  the message after a tick is therefore always the prefix plus three characters.
- `rotateBlend` on a one-colour cycle leaves `nil` in it. The loop never runs, so the zero
  value of `nextColor` is stored. In the program every blend has 6, 13 or 17 colours, so this
  never shows.
- The title validator accepts the empty title. `getModuleNameVariable` slices `[:1]`, which
  would panic on an empty title, so `VariableName` requires a non-empty title.
- The validator also accepts a title that starts with a space. `getModuleNameVariable` then
  lower-cases that space and drops it, so the variable name starts with the next letter in
  its own case: " Ab" gives "Ab", the same as the class name without its suffix.

## Model

| member | source | states |
|---|---|---|
| `Metadata.Tab.constructor` | main.go:17-23 | A new tab has an empty icon, is not shown by default and sits on the right side. |
| `Metadata.ModuleMetadata.constructor` | main.go:61-68 | New metadata has no render modes, an empty title and description, and a fresh default tab (never null). |
| `Metadata.ModuleMetadata.MakeModuleTitleHumanReadable` | main.go:34-36 | The title becomes `HumanReadable` of the old title; no other field changes. |
| `Metadata.ModuleMetadata.HasSidePanel` | main.go:70-81 | Returns true iff "renderInSidePanel" occurs among the render modes, regardless of position or repetition. On every call the tab is replaced by a fresh default tab, and only the tab changes. |
| `Metadata.HumanReadable` | main.go:35 | Same length as the raw title. Character by character: an underscore becomes a space; a character at the start or after a space or an underscore is upper-cased; every other character is lower-cased. No underscore is left. |
| `Metadata.KebabCase` | main.go:38-40 | Same length as the title. Each space becomes '-' and each other character is lower-cased at the same position. No space and no upper-case letter remains. |
| `Metadata.ElementKebabCase` | main.go:42-44 | Equals the kebab-case name followed by "-element", although it recomputes the kebab expression. |
| `Metadata.PackageName` | main.go:57-59 | "bookera-" followed by the kebab-case name, 8 characters longer than the title, with no spaces. |
| `Metadata.ClassName` | main.go:47-49 | No spaces. Its length is the title's non-space characters plus 7. It ends in "Element". When the title does not start with a space, it starts with the title's first letter upper-cased. |
| `Metadata.VariableName` | main.go:52-54 | Needs a non-empty title. No spaces, as many characters as the title has non-space characters, and no suffix. When the title does not start with a space, the first character is lower-cased. When it does, the name is the rest of the title without its spaces, so the next letter keeps its case (" Ab" gives "Ab"). |
| `Metadata.VariableElementName` | main_test.go:45-49 | The intended variable name: the camel-case name plus "Element". It has no spaces and ends in "Element". |
| `Metadata.KebabCaseIdempotent` | main.go:38-40 | Converting a kebab-case name again leaves it unchanged. |
| `Metadata.HumanReadableIdempotent` | main.go:34-36 | Making a title human-readable twice gives the same result as doing it once. |
| `Metadata.ClassNameCapitalisesVariableName` | main.go:47-54 | For every non-empty title-cased title, the class name is the intended variable name with its first letter upper-cased. |
| `Metadata.ClassNameOfSpaceLed` | main.go:47-54 | For a title-cased title starting with a space, both names lose the leading spaces and start with a letter already in upper case, so they agree after capitalising. |
| `Metadata.ClassNameHead` | main.go:47-49 | For a title not starting with a space, the class name is the title's first letter upper-cased, then the rest of the title-cased title without its spaces, then "Element". |
| `Metadata.KebabCaseTwoWords` | main.go:38-40 | Two space-free words joined by a space become their kebab-case forms joined by a hyphen. |
| `Metadata.DerivedNamesAgree` | main.go:34-54 | On the path the program takes (human-readable title first), for every non-empty raw title, class name and intended variable name differ only in their first letter's case. |
| `Metadata.AcceptedTitleNames` | form.go:71-81 | For any title the form accepts, the kebab-case name has only lower-case letters and '-', and the package name is at most 33 characters. |
| `Metadata.HumanReadableExample` | main_test.go:16-25 | "module_title" becomes "Module Title". |
| `Metadata.KebabNamesExample` | main_test.go:27-37 | "Module Title" gives "module-title" and "module-title-element". |
| `Metadata.PackageNameExample` | main_test.go:51-55 | "Module Title" gives "bookera-module-title". |
| `Metadata.IdentifierNamesExample` | main_test.go:39-49 | "Module Title" gives the class name "ModuleTitleElement" and the intended variable name "moduleTitleElement". |
| `Metadata.VariableNameMissesSuffix` | main.go:52-54 | As written, the variable name for "Module Title" is "moduleTitle", not "moduleTitleElement". |
| `Strings.ToLower` | main.go:39 | Same length; each character lower-cased in place. |
| `Strings.ReplaceChar` | main.go:35 | Same length; each occurrence of one character replaced by another, the rest untouched. |
| `Strings.RemoveChar` | main.go:48 | The character no longer occurs, a string without it is returned unchanged, and the first character is kept when it is not the one removed. The counts of the other characters are stated by `Strings.RemoveCharCount`. |
| `Strings.TitleCase` | main.go:48 | Same length, spaces where they were. The first character and each character after a space are upper-cased; all others are lower-cased. |
| `Strings.TitleCaseIdempotent` | main.go:35 | Title-casing a title-cased string changes nothing. |
| `Strings.ToLowerIdempotent` | main.go:39 | Lower-casing twice gives the same result as lower-casing once. |
| `Strings.RemoveCharCount` | main.go:48 | Dropping any character removes exactly its occurrences. Every other character keeps its count, and the length falls by the number of occurrences. |
| `Strings.RemoveCharConcat` | main.go:48 | Dropping a character from two strings joined together gives the same result as dropping it from each and joining the results. |
| `Strings.TitleCaseTwoWords` | main.go:35 | When the first word has no space, title-casing two words joined by a space title-cases each word on its own. |
| `Form.ValidateTitle` | form.go:71-81 | Accepts iff every character is a-z, A-Z or space and the length is at most 25. Characters are checked before length: a bad character gives the character error even when the title is too long. Otherwise a long title gives the length error with 25 and the actual length. |
| `Form.ValidateRenderModes` | form.go:94-100 | Rejects exactly the empty selection, with the "select one" error. |
| `Form.Rotated` | form.go:155-171 | Same length. For two or more colours the last colour moves to the front and every other colour moves one place right. A single colour becomes nil, and the empty cycle is unchanged. |
| `Form.RotatedIsCyclicShift` | form.go:160-168 | Except for one colour, the colour at position i ends up at (i + 1) mod n. |
| `Form.RotatedTimesSplit` | form.go:160-168 | After k rotations of at least two colours, the last k colours come first, in order, followed by the rest. |
| `Form.FullTurnRestores` | form.go:160-168 | n rotations of n ≥ 2 colours restore the original cycle. |
| `Form.SingleColourLost` | form.go:160-168 | A one-colour cycle is changed by a rotation: its colour is lost. |
| `Form.RotateBlend` | form.go:155-171 | Rotates the array in place as `Rotated` describes and returns the same array. |
| `Progress.Report` | gradient_load.go:37-48 | Cloning reports the Templating step and templating reports the Done step. |
| `Progress.Suffix` | gradient_load.go:151-166 | Three characters. Position i is a dot iff i ≤ (tick mod 27) / 9, and a space otherwise: one, two or three dots, advancing every 9 ticks. |
| `Progress.TickMessage` | gradient_load.go:151-167 | While cloning or templating: the phase prefix followed by the suffix, exactly 3 characters longer than the prefix. When done: the current message, unchanged. |
| `Progress.TickMessagePeriodic` | gradient_load.go:100-102 | The message at tick t + 27 equals the message at tick t. |
| `Progress.SuffixChangesEveryDivisor` | gradient_load.go:151-166 | The suffix changes exactly when the tick count reaches a multiple of 9. |
| `Progress.MessageGradient.constructor` | gradient_load.go:76-79 | The new gradient holds the message and a fresh array with the given colours. |
| `Progress.MessageGradient.UpdateMessage` | gradient_load.go:68-70 | Only the message changes. The colour array is the same array, with the same contents and length. |
| `Progress.MessageGradient.RotateBlend` | gradient_load.go:72-74 | The same array, rotated as `Rotated` says; the message is untouched. |
| `Progress.Model.constructor` | form.go:180 | The model starts with tick 0, step Cloning (the zero value) and no gradient. |
| `Progress.Model.Init` | gradient_load.go:91-98 | The message becomes "Cloning repo." with a fresh colour cycle, tick and step are kept, and the cloning task starts with a tick and a wait. |
| `Progress.Model.Update` | gradient_load.go:120-173 | Keys: "ctrl+c" or "q" quit, "ctrl+z" suspends, and any other key gives no command. Any other kind of message gives no command. Neither keys nor other messages change any field. A report sets the step to the reported one and replaces the gradient with a fresh one for the reported message. Its command is start-templating-and-wait for Templating, quit for Done, and a tick otherwise. A tick adds 1 to the count, keeps the step, sets the message to `TickMessage`, rotates the colour array in place and returns a tick. |
| `Progress.Feed` | gradient_load.go:120-173 | Messages that are not progress reports leave the step and the gradient object as they were. |
| `Progress.RunPipeline` | gradient_load.go:37-48 | For any ticks, keys and other messages arriving before and between the two reports, the step after every message is Cloning until the cloning task's report, Templating until the templating task's report, then Done. The commands are start-cloning, start-templating, then quit. |

## Findings

| source | as written | input that shows it | evidently intended | confidence | as-written member | corrected member |
|---|---|---|---|---|---|---|
| main.go:52-54 | `getModuleNameVariable` lower-cases the first letter and drops spaces, but appends nothing | title "Module Title" gives "moduleTitle" | "moduleTitleElement": main_test.go:48 asserts this, and it is the class name "ModuleTitleElement" with a lower-case first letter | high; not executed | `Metadata.VariableNameMissesSuffix` | `Metadata.VariableElementName` |

`ClassNameCapitalisesVariableName`, `DerivedNamesAgree` and `IdentifierNamesExample` use
the corrected `VariableElementName`.

## Left out

- The template substitution engine (`templateRepo`, called at gradient_load.go:44) is not part of this model. Its definition is not among the files modelled.
- `cloneRepo` (create_module.go:10-30): directory creation, a `git clone` subprocess and fatal logging, with no decision logic.
- The `useDebugMode` flag and `main` (main.go:83-91): the flag is set from the command line but never read in the modelled code.
- Goroutines, the progress channel, `waitForActivity` and the 50 ms `tick` sleep (gradient_load.go:37-57, 94-95, 139, 183-188) are shown only as `Command` values. The `Model` fields `sub` and `moduleMetadata` are omitted, because only the background tasks use them.
- The form flow (`runFirstStep`, `runSidePanelStep`, `runForm`, form.go:55-144, 173-186) is interactive UI. Only its validators are modelled.
- Colour and rendering: lipgloss styles, `rainbow`, `makeGradient`, `View`, and the colours `gamut.Blends` computes. Colours are an opaque type `C`. The blend for a message is the `palette` function given to `Model`.
- `debugPrint` (gradient_load.go:104-115) only appends to a debug file.
- The 400-character description limit (form.go:21) is never enforced, because the description has no validator.
- `Strings.ToLower`: ASCII only; Go's Unicode case mapping is not modelled. Validated titles contain only ASCII letters and spaces.
- `Strings.TitleCase`: models `cases.Title` for ASCII words separated by spaces. Unicode word-breaking rules for other separators are not modelled.
- `Progress.Model.Update`: `tick` is an unbounded natural number, so Go's 64-bit wrap-around after 2^63 ticks is not modelled.
- `Progress.Step`: Go's `step` is an integer, but the model uses a closed enumeration of the three values the code produces.
- Key presses are identified by the name the runtime gives them (`msg.String()`). Every other runtime message (a window resize, say) is the single value `Other`, because `Update` ignores its contents.
- `Progress.RunPipeline`: it keeps delivering messages after a key that returns the quit or suspend command. The runtime would stop or suspend there, so the run shown is the one where the user does not quit.
