# Form guard

This project models the client-side guard of a sign-up form (`script.js`). When the form is submitted, the guard runs one validation pass over two fields.

- It removes every inline error annotation left by an earlier pass.
- It HTML-escapes the username and checks two things: that it holds no space, and that its trimmed length is at least 4.
- It HTML-escapes the email and tests it against a fixed, anchored, case-insensitive pattern.
- Each failed check appends one annotation to the field's container. An annotation is a `div` carrying the message, class `error-message` and ARIA role `alert`.
- The pass returns true only if no check failed. The form is then submitted programmatically. Otherwise it stays on the page.

The project has four modules.

- `JsString` covers the two JavaScript string built-ins the rules rely on:
  - `trim`, with the ECMAScript WhiteSpace and LineTerminator set;
  - `length`, counted in UTF-16 code units, so a character above U+FFFF counts two.
- `Escape` covers `escapeHTML`:
  - the chain of five global replacements, `&` first;
  - a per-character entity map as its reference definition;
  - the proofs that the two agree and that the output holds no `<`, `>`, `"` or `'`.
- `Email` covers the email pattern:
  - its meaning, as a predicate saying some cut of the string into five pieces exists;
  - a deterministic test that cuts at the first `@` and the last `.`;
  - the proof that the two are equivalent;
  - the proof that escaping the value never changes the verdict.
- `FormGuard` covers the page:
  - a `Form` class holding the child lists of the `.input-container` elements, the indices of the two fields' containers, and a `submitted` flag;
  - `showInputError`, and the removal loop of `validateForm`;
  - `validateForm` itself, split into its username block and its email block;
  - the submit handler.

  The specification functions `UsernameFailures`, `EmailFailures` and `AfterPass` state what one pass leaves on the page. The lemmas about them prove the following:
  - the verdict is true exactly when the pass left no annotation;
  - the annotations shown are exactly this pass's failures, in order;
  - a second pass on the same values changes nothing.

Two behaviours of the code are proved and kept as written.

- The length rule measures the escaped value. A username of two special characters, such as `<<`, is two code units long, yet it passes the rule, because escaping turns each character into an entity of four or more characters (`EscapedShortUsernamePasses`). The rule is never stricter than the same rule on the raw value. On values without special characters, the two rules agree (`LengthRuleOnEscapedValue`).
- The comment above the username checks says "at least 3 characters". The code rejects lengths below 4, and the model follows the code.

## Model

| member | source | states |
|---|---|---|
| JsString.IsWhitespace | script.js:42 | the characters `trim` removes: the ECMAScript WhiteSpace and LineTerminator code points; the trim contracts below are stated over this set |
| JsString.TrimStart | script.js:42 | the result is a suffix of the input; everything dropped is whitespace; the result does not start with whitespace |
| JsString.TrimEnd | script.js:42 | the result is a prefix of the input; everything dropped is whitespace; the result does not end with whitespace |
| JsString.Trim | script.js:42 | the result is a slice of the input with only whitespace around it; it neither starts nor ends with whitespace; it is empty exactly when the input is all whitespace |
| JsString.TrimIsSlice | script.js:42 | trimming the start, then the end, leaves a slice with only whitespace before and after it |
| JsString.Utf16Length | script.js:42 | `length` counts between one and two code units per character |
| JsString.Utf16LengthAppend | script.js:42 | the length of a concatenation is the sum of the lengths |
| Escape.ReplaceAll | script.js:105-109 | one `.replace(/c/g, rep)`: every occurrence of `c`, left to right, becomes `rep`; `ReplaceAllAppend`, `ReplaceAllChar` and `ReplaceAllAbsent` prove it distributes over concatenation, acts on one character as the table says, and leaves a string without `c` unchanged |
| Escape.EscapeHtml | script.js:101-109 | the five replacements in source order, `&` first; proved equal to `EntityMap` (`EscapeHtmlIsEntityMap`), free of markup (`NoMarkupAfterEscape`), and unchanged exactly when the input holds no special character (`EscapeHtmlIdentity`) |
| Escape.EntityMap | script.js:104-109 | the reference definition of escaping: each character replaced independently by its entity |
| Escape.Entity | script.js:105-109 | each special character becomes an entity that starts with `&` and ends with `;`; every other character stays itself; no entity holds markup or a space |
| Escape.EscapeHtmlAppend | script.js:104-109 | escaping distributes over concatenation |
| Escape.EscapeHtmlChar | script.js:105-109 | escaping one character yields exactly its entity: the later replacements never touch an earlier entity |
| Escape.EscapeHtmlIsEntityMap | script.js:104-109 | the replacement chain equals the character-by-character entity map, so nothing is escaped twice |
| Escape.NoMarkupAfterEscape | script.js:101-109 | escaped output holds no `<`, `>`, `"` or `'` |
| Escape.EscapeHtmlIdentity | script.js:104-109 | a string comes back unchanged exactly when it holds none of the five special characters |
| Escape.SpaceSurvivesEscape | script.js:104-109 | the escaped value holds a space exactly when the raw value does |
| Escape.AmpersandMarksEscape | script.js:104-109 | the escaped value holds `&` exactly when the raw value holds a special character |
| Escape.EntityMapLength | script.js:104-109 | escaping never shortens a string, and it keeps the length exactly when there is no special character |
| Email.SplitsAt | script.js:56 | the pattern's five pieces at a given cut: a non-empty `[A-Z0-9._%+-]` run, `@`, a non-empty `[A-Z0-9.-]` run, a literal `.`, and two or more letters up to the end, letters of either case |
| Email.PatternMatches | script.js:56 | the anchored pattern matches: some cut satisfies `SplitsAt`; `MatchesEmailIffPattern` proves the deterministic test equivalent |
| Email.FirstIndexOf | script.js:56 | the index of the first occurrence, or the length when there is none |
| Email.LastIndexOf | script.js:56 | the index of the last occurrence, or -1 when there is none |
| Email.MatchesEmail | script.js:74 | `emailPattern.test(value)`: the cut at the first `@` and the last `.`; proved to accept exactly the strings `PatternMatches` holds of (`MatchesEmailIffPattern`) and to give the same verdict on the escaped value (`VerdictIgnoresEscaping`) |
| Email.MatchesEmailIffPattern | script.js:56 | the deterministic first-`@`, last-`.` test accepts exactly the strings the pattern matches |
| Email.MatchHasOneAt | script.js:56 | a matching string holds exactly one `@` |
| Email.MatchCharacters | script.js:56 | every character of a matching string is `@` or in the local-part class |
| Email.VerdictIgnoresEscaping | script.js:52-76 | the pattern gives the same verdict on the escaped value as on the raw one |
| FormGuard.ErrorNode | script.js:88-91 | the node `showInputError` builds: a `div` with the message as its text, class `error-message` and role `alert`; its contract states that `.error-message` selects it |
| FormGuard.UsernameFailures | script.js:32-47 | the spaces message is present exactly when the raw value holds a space; the length message is present exactly when the escaped, trimmed value is shorter than 4 code units; the spaces message comes first |
| FormGuard.EmailFailures | script.js:52-79 | the email message is present exactly when the raw value does not match the pattern |
| Escape.TrimStartEntityMap | script.js:42 | trimming leading whitespace commutes with the entity map |
| Escape.TrimEndEntityMap | script.js:42 | trimming trailing whitespace commutes with the entity map |
| Escape.Utf16LengthEntityMap | script.js:42 | the entity map never lowers the UTF-16 length |
| Escape.TrimEscapeCommute | script.js:42 | trimming the escaped value equals escaping the trimmed value |
| FormGuard.PassFailures | script.js:36-79 | every message of one pass, username ones first; empty exactly when the raw username holds no space, the escaped trimmed username is at least 4 code units long, and the raw email matches the pattern |
| FormGuard.LengthRuleOnEscapedValue | script.js:42 | the escaped trimmed length is at least the raw trimmed length, and the two are equal when there is no special character |
| FormGuard.EscapedShortUsernamePasses | script.js:42 | a username made of one special character twice is two code units long, yet reports no failure |
| FormGuard.WithoutErrors | script.js:25-28 | what removing the `.error-message` children leaves: no annotation; a container without annotations is unchanged |
| FormGuard.ErrorsIn | script.js:25-28 | what `.error-message` selects in a container: only annotations |
| FormGuard.FiltersAppend | script.js:25-28 | both filters distribute over concatenation |
| FormGuard.FiltersPartition | script.js:25-28 | removing annotations and selecting them split a container: together the two results hold every child exactly as often as the container does |
| FormGuard.FiltersSelect | script.js:25-28 | `.error-message` selects exactly the container's annotations, and removing them keeps exactly its other children |
| FormGuard.Notes | script.js:84-94 | one `ErrorNode` per message, in order; `NotesAreAnnotations` proves all of them are selected by `.error-message` |
| FormGuard.NotesAreAnnotations | script.js:84-94 | the nodes `showInputError` creates are all selected by `.error-message` |
| FormGuard.AppendAnnotation | script.js:94 | an appended annotation becomes the container's last annotation, and the other children are unchanged |
| FormGuard.UsernameNotes | script.js:36-47 | the username block appends the spaces note, if any, then the length note, if any; it reports no failure exactly when neither check fires |
| FormGuard.EmailNotes | script.js:74-77 | the email block appends the email note exactly when the test fails |
| FormGuard.Cleared | script.js:25-28 | every container with its annotations removed, as many containers as before |
| FormGuard.Annotate | script.js:36-77 | the username notes appended to the username's container, then the email notes to the email's (they may be one container); `AnnotateAt` states what each container then holds |
| FormGuard.AfterPass | script.js:25-77 | the page after one pass: `Cleared`, then `Annotate` with this pass's notes; `PassAnnotations`, `PassIsIdempotent` and `VerdictIffNoAnnotation` state what it holds |
| FormGuard.PassAnnotations | script.js:25-77 | after a pass, each container holds exactly this pass's annotations for its fields, username ones first, and its other children are unchanged |
| FormGuard.PassKeepsOtherChildren | script.js:25-28 | removing annotations after a pass gives what removing them before the pass gave |
| FormGuard.PassIsIdempotent | script.js:25-77 | a second pass on unchanged values leaves the page as the first one did, not with doubled annotations |
| FormGuard.VerdictIffNoAnnotation | script.js:22-79 | the pass reports success exactly when it leaves no annotation anywhere |
| FormGuard.Form.constructor | script.js:3 | a page whose two field containers exist, not yet submitted |
| FormGuard.Form.ShowInputError | script.js:82-95 | exactly one annotation with the given message is appended at the end of that container; nothing else changes |
| FormGuard.Form.RemoveErrorMessages | script.js:25-28 | every container loses its annotations and keeps its other children in order |
| FormGuard.Form.CheckUsername | script.js:30-47 | the username container gains exactly the username annotations; the result is true exactly when there was no username failure |
| FormGuard.Form.CheckEmail | script.js:49-77 | the email container gains exactly the email annotation; the result is true exactly when the email matched |
| FormGuard.Form.ValidateForm | script.js:20-80 | the page becomes the one `AfterPass` describes; the result is true exactly when no check failed, and exactly when no annotation is left |
| FormGuard.Form.OnSubmit | script.js:7-18 | the form becomes submitted exactly when the pass succeeded; the page is left as the pass left it |

## Left out

- **DOM lookups.** `querySelector`, `closest` and reading `.value` are not modelled. The two field values are parameters of `ValidateForm`. Each field's `.input-container` is a fixed index into the list of containers, and the two fields may share one.
- **A field outside any container.** If a field had no `.input-container` ancestor, `closest` would return null and `appendChild` at script.js:94 would throw. The pass would stop part-way (after a failed username check, the email check would not run) and the form would not be submitted. The `Form` constructor requires both container indices to exist, so the model does not represent this error path.
- **Annotations outside the containers.** `querySelectorAll(".error-message")` searches the whole document. The model holds the children of every `.input-container`, so `.error-message` nodes outside all of them are not represented.
- **Event plumbing.** `addEventListener` and `preventDefault` are not modelled. The native submission is always suppressed, so only the programmatic submission appears, as the `submitted` flag.
- **Browser effects.** The browser's page request after `formNode.submit()` is out of scope. So is the rendering of `innerText`: the node simply stores the message string.
- **Regular expressions in general.** Only the one fixed email pattern is modelled, as a hand-written predicate over ASCII character classes. Without the `u` flag, no non-ASCII character folds onto `A-Z`.
- **Unicode details.** The whitespace set follows the Unicode "Zs" category as of version 15.1, and a later Unicode version may add to it. A Dafny `char` is a Unicode scalar value, so lone surrogate code units in a JavaScript string cannot be represented.
- **Method structure.** `FormGuard.Form.ValidateForm` runs the username block and the email block as the two methods `CheckUsername` and `CheckEmail`. The checks, the messages and the places where the flag is cleared are the same as in `validateForm`. Only the code is grouped differently.
