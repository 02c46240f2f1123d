# Toggle buttons for note properties, modelled in Dafny

This project models the logic of an Obsidian plugin that turns
`togglebutton` code blocks into buttons. Each button toggles a boolean
property in the front matter of the note it sits in. A block holds
`key: value` lines, for example:

```
label: Done
property: isDone
id: done-button
```

The plugin's logic is all in `main.ts`. The model has five modules:

- `Text` (`text.dfy`): the JavaScript string operations the plugin uses.
  These are `trim` over the exact ECMAScript white-space set, `toLowerCase`,
  `split` on one character and `startsWith`. Their properties are proved here:
  - trim is the unique white-space-free infix, and it is idempotent;
  - trim commutes with lowering;
  - joining the pieces of a split gives the string back, and splitting a
    join of pieces free of the separator gives the pieces back.
- `Args` (`args.dfy`): the block-argument parser `getArgs`. `ParseArgs` is a
  function specifying it, and `GetArgs` is the imperative loop proved equal to
  it. `None` stands for the exception thrown by a line without `:`.
- `FrontMatter` (`frontmatter.dfy`): the front matter of a note, a map from
  property name to a value that is either a boolean or something else. A
  `File` class holds it, with `getFileProperty` and `toggleFileProperty` as
  methods. The methods are proved against the functions `PropertyValue` and
  `Toggled`.
- `Buttons` (`buttons.dfy`): what `createButton` builds (`PlanFor` specifies
  it), the `Button` class with its click handler, and the loop of the
  reading-view post-processor over the page's code elements.
- `Wrappers` (`wrappers.dfy`): `Option`.

Four behaviours of the code are easy to miss, and the model keeps them as
written:

- A value is the text between the first and the second `:` of its line, so
  `label: 10:30` gives the label `10`.
- A blank line inside a block has no `:`, so parsing throws on it.
- In the reading view, the `togglebutton` tag line is passed on to
  `createButton` with the rest of the block and parsed as a line.
- A button toggles the property in the file that was active when the button
  was made, not in the file active at click time.

## Model

| member | source | states |
|---|---|---|
| Args.ParseArgs | main.ts:48-75 | What `getArgs` returns: `None` where a line of the trimmed block has no `:` and the call throws, else the dictionary of the lines' keys and values stored in order. It has at most one key per line. |
| Args.KeyOf | main.ts:64 | The key of a line, `keyValuePair[0].toLowerCase().trim()`, is lower-cased and has no white space at either end. |
| Args.ValueOf | main.ts:67 | The value of a line, `keyValuePair[1].trim()`, holds no `:` and has no white space at either end. |
| Args.GetArgs | main.ts:48-75 | The loop over the lines of the trimmed block returns exactly `ParseArgs`: no result when a line lacks `:`, else the dictionary filled line by line. |
| Args.ParseArgsSucceedsIff | main.ts:53-67 | Parsing succeeds if and only if every line of the trimmed block contains a `:`. |
| Args.LineWithoutColonFails | main.ts:61-67 | Any line without `:` makes `keyValuePair[1]` undefined, so parsing throws. |
| Args.BlankLineFails | main.ts:53-67 | A blank or white-space-only line inside the block makes parsing throw. |
| Args.EmptySourceFails | main.ts:53-67 | An empty or white-space-only block makes parsing throw. |
| Args.PaddedSource | main.ts:53 | White space or blank lines around the whole block change neither the lines nor the result. |
| Args.StoreKeys | main.ts:59-71 | A key is in the dictionary if and only if some line produced it. |
| Args.LastOccurrenceWins | main.ts:59-71 | The value stored for a key comes from the last entry with that key; earlier ones are overwritten. |
| Args.StoreLast | main.ts:59-71 | Every stored value comes from the last entry carrying its key. |
| Args.LastLineWins | main.ts:59-71 | Stated on the lines of the block: a line not followed by another line with the same key decides that key's value. |
| Args.KeysNormalized | main.ts:59-71 | Every key of the parsed dictionary is lower-cased and trimmed. |
| Args.LineSegments | main.ts:61-67 | The key is the lowered and trimmed text before the first `:`. The value is the trimmed text between the first and second `:`. Anything after is dropped. |
| Args.SingleLine | main.ts:53-71 | A one-line block parses to the one-entry dictionary of that line's key and value. |
| Args.TimeLineEntry | main.ts:61-67 | The line `key: hours:minutes` yields key `key` and value `hours`. |
| Args.SecondColonDropsRest | main.ts:53-71 | The whole block `key: hours:minutes` (as in `label: 10:30`) parses to `{key: hours}`; the minutes are lost. |
| Args.TaggedFirstKey | main.ts:31-36 | When the reading-view text starts with `togglebutton`, its first line's key does too, so that line never sets `label`, `property` or `id`. |
| Args.TagLineAloneFails | main.ts:31-36 | When the first line of the reading-view text is the tag with only white space around it, that line has no `:` and parsing throws. |
| Text.Trim | main.ts:53 | `trim`: the string without the ECMAScript white space at either end; never longer than the string. |
| Text.ToLower | main.ts:64 | `toLowerCase`: the same length, with no upper-case letter left. |
| Text.Split | main.ts:61 | `split` on one character: the pieces between successive separators, always at least one. |
| Text.StartsWith | main.ts:34 | `startsWith`: the string is at least as long as the prefix and begins with it. |
| Text.TrimSpec | main.ts:53 | `trim` returns the infix between a white-space prefix and a white-space suffix, and its result neither starts nor ends with white space. |
| Text.TrimUnique | main.ts:53 | The infix between white-space ends that is itself free of white space at its ends is the trim. |
| Text.TrimPadded | main.ts:53 | Extra white space around a string does not change its trim. |
| Text.TrimIdempotent | main.ts:64-67 | Trimming twice is trimming once. |
| Text.TrimEmptyIff | main.ts:53 | The trim is empty if and only if the string is all white space. |
| Text.TrimNoop | main.ts:31 | A string with non-space ends is its own trim. |
| Text.TrimKeepsPrefix | main.ts:31-34 | Trimming keeps a prefix that has non-space ends. |
| Text.TrimToLowerCommute | main.ts:64 | Lowering then trimming equals trimming then lowering. |
| Text.ToLowerNoop | main.ts:64 | A string with no upper-case letter is unchanged by `toLowerCase`. |
| Text.FirstIndexSpec | main.ts:61 | The separator does not occur before the first index. That index is inside the string exactly when the separator occurs, and it holds the separator there. |
| Text.SplitPiecesFree | main.ts:61 | No piece of a split contains the separator. |
| Text.SplitJoin | main.ts:61 | Joining the pieces of a split with the separator gives back the string. |
| Text.JoinSplit | main.ts:61 | Splitting the join of pieces that do not contain the separator gives the pieces back. |
| Text.SplitHasSecond | main.ts:61-67 | A split has a second piece if and only if the separator occurs. |
| Text.SplitNone | main.ts:53 | A string without the separator splits into itself alone. |
| Text.SplitAt | main.ts:53 | The first piece ends at the first separator; the rest is split further. |
| Text.SplitFirstStartsWith | main.ts:53-64 | A prefix without the separator remains a prefix of the first piece. |
| FrontMatter.PropertyValue | main.ts:88-93 | The read is `true` exactly when the property holds the boolean `true`; a missing or non-boolean property reads `false`. |
| FrontMatter.Toggled | main.ts:110-116 | The toggle keeps the set of properties and every other property. It negates a boolean property. A non-boolean or missing property is left alone and the result is `false`. The result always equals the read that follows. |
| FrontMatter.ToggleNegatesRead | main.ts:104-119 | On a boolean property the toggle resolves with the negation of the previous read. |
| FrontMatter.ToggleTwice | main.ts:110-113 | Two toggles restore the front matter. |
| FrontMatter.ToggleAlternates | main.ts:110-116 | Two successive toggles resolve with opposite values exactly when the property is a boolean. |
| FrontMatter.ToggleLeavesOthers | main.ts:112 | Toggling one property does not change the read of any other. |
| FrontMatter.File.constructor | main.ts:82-87 | A file holds the front matter it is given. |
| FrontMatter.File.GetFileProperty | main.ts:82-96 | `getFileProperty` writes nothing. It returns `true` exactly when the property holds the boolean `true`. |
| FrontMatter.File.ToggleFileProperty | main.ts:104-119 | `toggleFileProperty` leaves the front matter and result that `Toggled` specifies. |
| Buttons.Lookup | main.ts:135 | `args.label`: the stored value when the key is present, `undefined` (`None`) otherwise. |
| Buttons.WhenTruthy | main.ts:140-146 | The truthiness tests on `args.id` and `args.property`: a value only when the key is present with a non-empty value. |
| Buttons.PlanFor | main.ts:121-175 | With no active file the result is the error span `togglebutton error: active file is null`, and nothing is parsed. With a file, `createButton` throws exactly when parsing throws. An `id` or handler is planned only with a non-empty value. |
| Buttons.PropertyLineGivesHandler | main.ts:131-146 | The last `property` line of a block gives the button a handler for its value when the value is non-empty, and no handler when it is empty. |
| Buttons.TaggedBlockPlan | main.ts:29-36 | For reading-view text, a first line that is the tag with only white space around it makes `createButton` throw. In every case the first line sets no label, id or property. |
| Buttons.Button.constructor | main.ts:134-137 | A new button has the given label, id, handler and file, and only the class `tag-toggle-button`. |
| Buttons.Button.Click | main.ts:147-165 | With a handler, a click toggles the property in the captured file, and `mod-cta` is present exactly when the toggle resolved `true`, which is the property's new read. No other class changes. Without a handler nothing changes. |
| Buttons.ClickTwice | main.ts:147-165 | Two clicks restore the file's front matter. The button ends active exactly when the property was `true` before. |
| Buttons.ClickLeavesOtherButton | main.ts:147-165 | Clicking one of two buttons bound to the same boolean property changes the stored value but not the other button's classes. |
| Buttons.CreateButton | main.ts:121-175 | `createButton` returns what `PlanFor` describes. A new button is fresh and inactive, with the label, the truthy id, the truthy property and the active file. |
| Buttons.IsToggleBlock | main.ts:31-34 | The prefix filter: a code element is a toggle block exactly when its trimmed inner text starts with `togglebutton`. |
| Buttons.ProcessBlock | main.ts:30-43 | One code element is replaced by what `createButton` makes of its trimmed text when that text starts with `togglebutton`. The step reports when `createButton` throws. Other elements are untouched. A button put in place is a new object. |
| Buttons.PostProcess | main.ts:29-44 | Code elements are processed in order until one throws. The index returned is that of the throwing block, or the element count. Elements before it are processed, and it and all later ones are unchanged. Every button put in place is new, and no two elements share one. |

## Left out

- Registering the processors with the host (main.ts:1-9, 22) is not modelled. The live-preview code-block processor (main.ts:7-19) calls `createButton` on the block body and replaces the block with the result, so `CreateButton` covers it. The body there carries no tag line, and that replacement is DOM work.
- `getActiveFile` (main.ts:124) is a host call. Its result is the `activeFile` parameter of `CreateButton` and `PostProcess`.
- `processFrontMatter` (main.ts:87, 109) is modelled as direct access to the `File`'s map. Writing the note back to disk is not modelled.
- Promises, `async`/`await` and the unused `reject` are not modelled. A click runs to completion before anything else happens, and clicks do not interleave.
- DOM work is not modelled: `createEl`, `setAttribute`, `replaceWith`, `findAll` and `innerText` (main.ts:17, 25, 31, 42, 134-147). A button is its caption, id, handler, file and set of classes. The page's code elements are an array of nodes. That `createEl` also appends the new element to the container `el` is not modelled.
- Buttons.Button.Click: the delegated listener `on("click", "button", ...)` is assumed to fire when the button itself is clicked. The model does not capture how the host matches the selector.
- Text.ToLower: lowers only the ASCII letters A-Z. JavaScript's full Unicode case mapping is not modelled.
- Text.Split: only a one-character separator is modelled, which is all the plugin uses.
- Args.ParseArgs: the dictionary is a map, so special keys of JavaScript objects such as `__proto__` are not modelled. The plugin reads only `label`, `id` and `property`, which no object inherits.
- Every non-boolean front-matter value (text, number, list, null) is collapsed into `Other`, because the plugin only tests `typeof value === "boolean"`.
- The TODOs at main.ts:13-14 and 38-39 are not modelled because they are not implemented. New buttons start without `mod-cta` even when their property is `true`.
- Exceptions other than the one `getArgs` throws are not modelled. When `createButton` throws, the reading-view processor's callback rejects. The model stops its loop at that block and leaves it and later blocks in place.
