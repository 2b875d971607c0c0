# aitoslop: the substitution cascade, the editability rule and the text-node pass

`aitoslop.js` is a browser content script that rewrites mentions of AI on a web page
("Apple Intelligence" becomes "Apple Slop", "AI" becomes "Slop", and so on). It leaves alone
text that sits inside something the user can edit. This project models three pieces of it
in Dafny and proves what they do:

- **The substitution cascade** of `replaceTextInNode`. Six global regular-expression
  replacements run one after another on a string, each with its own callback and its own
  case rule. A counter records how many times the callbacks ran. The node's text is
  written back only when that counter is positive.
  - `CharClass` models the regular-expression building blocks: `\w`, `\b`, `\s`, the `i`
    flag and `includes`.
  - `Patterns` models each expression as a matcher tried at one position, plus its callback.
  - `Substitution` models the left-to-right, non-overlapping scan of a global `replace`,
    and the six-step cascade.
- **`isEditableElement`** (`Editable`). It is a rule over an element and its chain of
  parent elements. It comes as a specification predicate and as a method that walks the
  chain with a loop, as the script does.
- **The walk over the text nodes** (`Walker`). A `TextNode` class holds the mutable
  `textContent`. The model covers `replaceTextInNode` as an imperative method over it, the
  `acceptNode` filter, and the two loops of `replaceTextInAllNodes`: one collects the
  accepted nodes, the other rewrites them and counts the changes.

Regular expressions follow JavaScript's rules for a pattern without the `u` flag:
- `\w` is `[A-Za-z0-9_]`, and `\b` is judged on that class.
- `\s` is the WhiteSpace and LineTerminator set.
- The `i` flag only folds ASCII letters onto ASCII letters, so ASCII lower-casing is exact
  for these literal patterns.
- A greedy `\s+` that is followed by a letter succeeds in exactly one way. The model
  therefore takes the maximal whitespace run.
- `[a-z]+\w*` always runs to the end of the word.

The callbacks are modelled as written, including their `includes` tests and their
fallback branches. Lemmas then derive the simple rule each callback actually follows.

The model follows the code where a description of the script might lead one to expect
something else:
- "artificial intelligence" in lower case becomes "slop", not "Slop". The callback only
  looks at whether the first character is 'A'.
- "AI slop" becomes "slop slop". The file has no guard that skips text which already says
  "AI slop", and it has no negative lookahead.

## Model

| member | source | states |
|---|---|---|
| CharClass.SpaceRunEnd | aitoslop.js:75 | the greedy `(\s+)` group stops at the end of the maximal run of whitespace characters: everything before the end is whitespace, and the character at the end is not |
| CharClass.WordRunEnd | aitoslop.js:103 | the greedy `\w*` runs to the end of the word: everything before the end is a word character, and the character at the end (if any) is not |
| CharClass.ContainsIff | aitoslop.js:78-80 | the left-to-right `includes` search succeeds exactly when the needle occurs at some position of the text |
| CharClass.IsSpace | aitoslop.js:75-93 | `\s` of the two-word patterns: tab, line feed, vertical tab, form feed, carriage return, space, no-break space, U+1680, U+2000-U+200A, the line and paragraph separators, U+202F, U+205F, U+3000 and the byte order mark; no contract, its use is stated by `SpaceRunEnd` and `TwoWordMatchShape` |
| CharClass.WordBoundary | aitoslop.js:75-118 | `\b`: exactly one of the characters on either side of the position is a `\w` character, the text's ends counting as non-word; no contract, its effect is stated by `AiCamelPrefixRule`, `BareAiRule` and `BareAiScanClean` |
| CharClass.CiLiteralAt | aitoslop.js:75-109 | a literal of a pattern with the `i` flag occurs at the position, compared after ASCII lower-casing; no contract, its effect is stated by `TwoWordMatchShape` and the callback rows |
| Patterns.Replacement | aitoslop.js:76-125 | the six callbacks as written, `includes` tests and fallback branches included, applied to the matched text and its capture group; what each one yields is stated by the callback rows below |
| Patterns.ReplacementAddsNoI | aitoslop.js:76-125 | no callback writes a letter i of its own: its result holds no more 'i'/'I' than the captured group |
| Patterns.MatchAt | aitoslop.js:75-126 | a match found at a position is non-empty and lies within the text, so the global scan always moves forward |
| Patterns.TwoWordMatchShape | aitoslop.js:75 | a match of `\bFirst(\s+)Second\b` under `i` is the first word in any case, then the captured whitespace run (non-empty, all `\s`), then the second word in any case |
| Patterns.AppleIntelligenceCallback | aitoslop.js:75-82 | step 1 keeps the whitespace run; the first word becomes "apple" exactly when the match spelt it "apple", otherwise "Apple"; the second word becomes "Slop" exactly when the match spelt it "Intelligence", otherwise "slop" |
| Patterns.ArtificialIntelligenceCallback | aitoslop.js:85-90 | a step 2 match starts with 'A' or 'a'; the whole phrase, whitespace included, becomes "Slop" when it starts with 'A' and "slop" otherwise |
| Patterns.AiSlopCallback | aitoslop.js:93-99 | step 3 yields "slop", the same whitespace run, then "Slop" exactly when the match spelt the second word "Slop", otherwise "slop" |
| Patterns.AiCamelPrefixRule | aitoslop.js:101-106 | step 4 is case-sensitive: it matches at a position exactly when a word starts there with "AI", an upper-case letter and a lower-case letter; the match runs to the end of the word, and the replacement is "Slop" followed by the rest of the word |
| Patterns.AiDottedRule | aitoslop.js:108-115 | a step 5 match starts with 'A' or 'a' and becomes "Slop" or "slop" accordingly; the fallback branch is never taken |
| Patterns.BareAiRule | aitoslop.js:117-126 | step 6 only ever matches the exact upper-case word "AI", so it always yields "Slop"; the 'ai', 'Ai', 'aI' and fallback branches are unreachable |
| Substitution.Scan | aitoslop.js:75-126 | a global `replace` runs its callback at most once per character of the input, and leaves the text unchanged when the callback never runs |
| Substitution.Step | aitoslop.js:75-126 | one `newText.replace(/…/g, callback)` call: the global scan from the start of the text; its properties are those of `Scan` |
| Substitution.MatchDropsI | aitoslop.js:75-126 | each pattern's match holds an 'i' or 'I' outside its capture group, so a callback run always leaves fewer of them than the match had |
| Substitution.ScanDropsI | aitoslop.js:75-126 | after a global `replace`, the letters i left plus the number of callback runs never exceed the letters i of the input |
| Substitution.CascadeDropsI | aitoslop.js:70-126 | the same holds for the whole cascade, so a cascade whose counter is positive always returns a different text |
| Substitution.ScanCountZeroIff | aitoslop.js:75-126 | a global `replace` runs its callback zero times exactly when the pattern matches at no position of the text |
| Substitution.ApplySteps | aitoslop.js:70-126 | a sequence of replacements whose counters add up to zero leaves the text unchanged |
| Substitution.Cascade | aitoslop.js:70-126 | when no callback of the six steps ran, the cascade's output is its input |
| Substitution.CascadeInSteps | aitoslop.js:70-126 | the cascade applies the six replacements in the script's order, each to the previous one's output, and its counter is the sum of the six counts |
| Substitution.BareAiScanClean | aitoslop.js:118-126 | the output of step 6's scan contains no whole-word upper-case "AI", even where a "Slop" now sits next to the surrounding characters |
| Substitution.NoBareAiAfterStep | aitoslop.js:118-126 | after step 6, step 6 matches nowhere in the text, so running it again changes nothing |
| Substitution.CascadeLeavesNoBareAi | aitoslop.js:117-126 | the text the cascade leaves behind contains no whole-word upper-case "AI" |
| Substitution.CamelPrefixSkipsAcronyms | aitoslop.js:101-103 | step 4 does not match "AIO" or "AIML" |
| Substitution.CamelPrefixSkipsLowerCase | aitoslop.js:103 | step 4 does not match "aiStorage" |
| Substitution.CamelPrefixRewrites | aitoslop.js:101-106 | step 4 turns "AIStor" into "SlopStor", with one callback run |
| Substitution.AiSlopRewrites | aitoslop.js:92-99 | step 3 turns "AI slop" into "slop slop", with one callback run |
| Editable.IsEditableElement | aitoslop.js:11-60 | the loop over the parent chain returns exactly the classifier's rule: null is not editable; otherwise the element's tag, contenteditable, the `closest` form-control test and role are checked, then each ancestor's contenteditable and tag |
| Editable.IsEditable | aitoslop.js:11-60 | the classifier's rule, check by check in the script's order; a null element is never editable (the full characterisation is `EditableIff`) |
| Editable.InFormControl | aitoslop.js:33 | `closest('form input, form textarea, form select')` finds an element: some element of the chain is an input, textarea or select with a form above it; such an element always has an ancestor |
| Editable.AncestorEditableIff | aitoslop.js:43-57 | the `while (parent)` walk finds an editable ancestor exactly when some ancestor has an editable tag or is content-editable |
| Editable.InFormControlRedundant | aitoslop.js:32-35 | whenever `closest('form input, form textarea, form select')` finds an element, some element of the chain already has an editable tag |
| Editable.EditableIff | aitoslop.js:11-60 | a null element is not editable; otherwise it is editable exactly when the element or an ancestor has an editable tag or is content-editable, or the element's own role is an editable role (an ancestor's role never counts) |
| Walker.TextNode.constructor | aitoslop.js:63-70 | a text node holds its mutable `textContent` and its fixed `parentElement` with that element's ancestors |
| Walker.Changes | aitoslop.js:128 | the `replacements > 0` test: some callback of the cascade ran; no contract, `ChangesIffNewText` proves it holds exactly when the text changes |
| Walker.Rewritten | aitoslop.js:128-131 | the text a node holds after `replaceTextInNode`: the cascade's output when some callback ran, the old text otherwise; no contract, `ChangesIffNewText`, `ReplaceTextInNode` and `RewriteCollected` state its properties |
| Walker.ChangesIffNewText | aitoslop.js:70-131 | some step matched exactly when the cascade's output differs from the original text, so the write-back happens exactly when the text changes |
| Walker.ReplaceTextInNode | aitoslop.js:63-134 | a node under an editable element is left unchanged and reports false; otherwise it reports true exactly when some step matched, and its text becomes the cascade's output (it is unchanged when nothing matched) |
| Walker.AcceptNode | aitoslop.js:144-163 | `acceptNode` as the script writes it: reject a node without a parent, then one whose parent's lower-cased tag is a skipped tag, then one whose parent is editable; an accepted node always has a parent that is not editable |
| Walker.AcceptNodeIff | aitoslop.js:144-163 | a text node is accepted exactly when it has a parent, the parent's lower-cased tag is not script, style, noscript, code or pre (only the direct parent's tag is tested), no element from the parent up has an editable tag or is content-editable, and the parent has no editable role |
| Walker.Eligible | aitoslop.js:140-173 | the collected nodes are exactly the accepted ones among the nodes under the root, never more than there are nodes, and without repeats |
| Walker.CountChanged | aitoslop.js:176-181 | counts the texts on which some step matched, which by `ChangesIffNewText` are the texts the rewrite changes; the count is at most the number of texts |
| Walker.CollectTextNodes | aitoslop.js:167-173 | the collecting loop pushes exactly the accepted nodes, in document order |
| Walker.RewriteCollected | aitoslop.js:176-181 | the `forEach` loop rewrites every collected node and counts exactly those whose text the cascade changes |
| Walker.ReplaceTextInAllNodes | aitoslop.js:137-184 | a null root yields 0; otherwise the result is the number of accepted nodes whose text some step matched, so it is at most the number collected; every accepted node ends with its rewritten text, and every other node is unchanged |

## Left out

- The `MutationObserver` subscription and its dispatch (aitoslop.js:187-214) are not modelled. They are asynchronous DOM events. For an added element, the dispatch re-runs `replaceTextInAllNodes` when the element is not editable (modelled above). For an added text node, it runs `replaceTextInNode` when the parent is not editable (also modelled).
- The once-only guard on `window.aiToSlopReplacerLoaded` (aitoslop.js:5-8), the `readyState`/`DOMContentLoaded` entry point and the `console.log` call (aitoslop.js:216-232) are host-environment plumbing and are not modelled.
- The DOM itself is abstracted. The nodes under a root are a sequence in document order, which stands in for the `TreeWalker` traversal. An element's `parentElement` chain is a sequence of element records. `closest` is modelled as a predicate over that chain rather than as selector matching.
- The `nodeType === Node.TEXT_NODE` test (aitoslop.js:64) is not modelled: every node in the model is a text node, as the walker's `SHOW_TEXT` guarantees.
- Strings are sequences of Dafny characters, and a character stands for a Unicode code point rather than a UTF-16 code unit. A string holding a lone surrogate cannot be written down, and a surrogate pair counts as one character. No pattern is affected by this: a surrogate half is not `\w`, not `\s`, and not any letter a pattern names.
- `toLowerCase` is modelled as ASCII lower-casing (`CharClass.LowerStr`). The script applies it in two places. First, to tag names (aitoslop.js:14, 51, 149). Every name in the tag lists, and "form", is spelt in ASCII lower-case letters without a 'k'. The only non-ASCII character whose full Unicode lower-case form is plain ASCII is the Kelvin sign, which becomes 'k'. So full lower-casing puts a tag name in a list exactly when ASCII lower-casing does. Second, to the matched text in the step 1 and step 3 callbacks (aitoslop.js:79, 96). Such a match holds only ASCII letters and `\s` characters: without the `u` flag, the `i` flag never lets a non-ASCII character match an ASCII letter. Unicode lower-casing leaves every `\s` character unchanged, so the two forms of lower-casing agree there. The `role` value is compared as it is, case-sensitively (aitoslop.js:38-39), and so is it in the model.

