# InkWell editor core in Dafny

InkWell is a browser note editor. This project models the logic inside its
single script, `app.js`, covering three parts:

- **Line-block editing.** The indent and outdent buttons rewrite every whole
  line that the selection touches. The buffer is split on line feeds, each
  line is transformed, and the lines are joined again. The new block is then
  selected. The Tab key replaces the selection with two spaces.
- **The punctuation normaliser.** This is a pipeline of global
  regular-expression replacements. It cleans up whitespace, tightens the
  spacing around punctuation, capitalises a standalone `i` and the first
  letter of each sentence, and ends the text with a terminal mark.
- **The local account rules.** These cover sign-up, login and logout over the
  stored user list, plus the key under which each user's note is stored.

The modules:

- `text.dfy` (module `Text`): the character classes, with an explicit ASCII
  reading of `\s` and `\b`, and the JavaScript string primitives the code
  uses. These are `indexOf`, `lastIndexOf`, `slice`, `split("\n")`,
  `join("\n")`, `trim` and `toLowerCase`.
- `lines.dfy` (module `LineEdit`):
  - block selection as written, with a corrected variant;
  - the indent and outdent line transforms;
  - the pure specification `EditLines` of `applyToSelectedLines`;
  - a class `Editor` whose methods update the text area's buffer and
    selection in place.
- `punctuation.dfy` (module `Punctuation`): each replacement pass written as
  one left-to-right scan that behaves like the regular-expression engine.
  - The sentence split keeps its capture groups and is modelled literally:
    its pieces are capitalised and then concatenated.
  - On text that starts with non-whitespace, which is all the pipeline
    ever passes it, that split is proved equal to a simpler
    position-by-position scanner, `CapScan`. The capitalisation
    properties are stated about `CapScan`.
  - `Squash` reads a text with every whitespace run as one space, and
    `Words` trims that. Equal `Squash` means the same words with the same
    gaps between them. The whitespace passes are proved to keep it.
- `accounts.dfy` (module `Accounts`):
  - `NoteKey`;
  - the `some` and `find` look-ups over the user list;
  - a class `Registry` holding the stored user list and the current user,
    with methods for the three form handlers.

### Behaviour worth knowing

- **Normalising twice can change the text.** `"a,"` normalises to `"A,."`,
  and normalising that gives `"A, ."`. The space-after-mark pass puts a
  space between the comma and the appended full stop.
  `Punctuation.NormalizeNotIdempotent` proves both runs.
- **The block can start past the caret.** Call this the leading-line-feed
  case: a selection starts at 0 on a buffer that starts with a line feed.
  Then the computed block starts at 1, so it misses the empty first line.
  With the caret at 0, the block is (1, 0). See Findings.
- **Indent then outdent restores every buffer**, including lines that
  already had leading whitespace. This is proved for every selection
  that does not start at 0 on a buffer starting with a line feed. Of those
  excluded selections, only the caret at 0 actually breaks the round trip.
  The proof does not cover the others.
- **Selections are always in range.** Every line-editing function reads
  `selectionStart` and `selectionEnd` without clamping them. A text area
  keeps `0 <= selectionStart <= selectionEnd <= value.length`, and the
  model takes that as the class invariant `Editor.Valid`.

## Model

| member | source | states |
|---|---|---|
| Text.IndexOf | app.js:77 | `indexOf` returns -1 exactly when the character does not occur from `from` on; otherwise it returns the first position at or after `from` that holds it |
| Text.LastIndexOf | app.js:76 | `lastIndexOf`: the result holds the character and lies at or before `max(from, 0)`; no later position up to `from` holds it; a negative `from` still finds position 0 |
| Text.Slice | app.js:80-82 | `slice` agrees with the subsequence for in-range bounds and is empty when the bounds cross |
| Text.SplitLines | app.js:83 | `split("\n")` gives one piece more than there are line feeds, and no piece contains a line feed |
| Text.JoinSplit | app.js:83 | joining the pieces of a split with line feeds gives back the text |
| Text.SplitJoin | app.js:83 | splitting a join of line-feed-free lines gives back those lines |
| Text.JoinLines | app.js:83 | a join of line-feed-free lines holds one line feed fewer than there are lines |
| Text.JoinLinesLength | app.js:83 | a join is as long as its lines plus one separator between each pair |
| Text.Trim | app.js:92 | `trim` returns a piece of the text with only whitespace before and after it; it is empty exactly for all-whitespace text, otherwise starts and ends with non-whitespace, and keeps text free of doubled whitespace |
| Text.TrimPadded | app.js:92 | `trim` of whitespace, then a text with non-whitespace ends, then whitespace, is that text |
| Text.WordsTrim | app.js:92 | trimming keeps the words and the gaps between them |
| Text.TrimVisible | app.js:92 | `trim` removes only whitespace |
| Text.ToLower | app.js:38 | `toLowerCase` keeps the length, leaves no upper-case letter, keeps letters letters, leaves every non-letter alone, and keeps each character's upper-case form |
| LineEdit.SelectBlock | app.js:76-78 | the block as written starts at the beginning of a line and ends at a line feed or the end of the text |
| LineEdit.SelectBlockIsLineBlock | app.js:76-78 | the block as written covers exactly the lines the selection touches unless the selection starts at 0 on a buffer that starts with a line feed |
| LineEdit.LineBlockUnique | app.js:76-78 | a selection touches exactly one block of whole lines |
| LineEdit.SelectBlockFixed | app.js:76-78 | the corrected block always covers exactly the touched lines |
| LineEdit.SelectBlockAgrees | app.js:76-78 | outside the leading-line-feed case, the block as written and the corrected block coincide |
| LineEdit.IndentLine | app.js:180 | indent puts exactly two spaces in front of the line |
| LineEdit.OutdentLine | app.js:183 | outdent removes a prefix of at most two characters, all spaces; it stops short of two only when the next character is not a space |
| LineEdit.OutdentIndentLine | app.js:180-183 | outdent undoes indent on every line |
| LineEdit.IndentBlock | app.js:83 | indenting a block indents each of its lines, empty lines included, and grows it by two characters per line |
| LineEdit.OutdentIndentBlock | app.js:180-183 | outdenting an indented block restores it |
| LineEdit.TransformBlock | app.js:83 | split, map and join is the identity for the identity transform, and keeps the number of line feeds for a transform that keeps lines free of them |
| LineEdit.Splice | app.js:80-87 | the text before the block and after it is unchanged, and the new selection starts at the block start and lies inside the new buffer |
| LineEdit.EditLines | app.js:72-87 | the new selection lies inside the new buffer, and the text before it is the old text before the block start |
| LineEdit.SpliceFrame | app.js:80-87 | the new buffer is the unchanged text before the block, the transformed block, and the unchanged text after; the new selection is exactly the transformed block |
| LineEdit.EditLinesFrame | app.js:72-87 | outside the leading-line-feed case, `applyToSelectedLines` touches only the selected lines and selects the transformed block |
| LineEdit.IndentedStartsWithSpace | app.js:180 | an indented block begins with a space, so reselecting it does not hit the leading-line-feed case |
| LineEdit.ReselectWritten | app.js:76-87 | after indent, the recomputed block of the new selection is the indented block itself |
| LineEdit.RoundTripWritten | app.js:72-87 | indenting a whole-line block and then outdenting the block recomputed, as written, from the new selection restores the buffer and selects the original block |
| LineEdit.IndentThenOutdent | app.js:72-87 | outdent after indent restores the buffer and selects the original block, whenever the selection does not start at 0 on a buffer starting with a line feed |
| LineEdit.IndentThenOutdentFixed | app.js:72-87 | with the corrected block rule, outdent after indent restores every buffer |
| LineEdit.IndentExample | app.js:72-87 | indent on `"abc\ndef"` with the caret at 1 gives `"  abc\ndef"` with the selection (0, 5) |
| LineEdit.OutdentExample | app.js:72-87 | outdent on `" a\n  b"`, all selected, gives `"a\nb"` with the selection (0, 3) |
| LineEdit.IndentDuplicatesLeadingNewline | app.js:76-85 | on `"\nabc"` with the caret at 0 the block is (1, 0); indent gives `"\n  \nabc"` and outdent then gives `"\n\nabc"`, not the original |
| LineEdit.Editor.ApplyToSelectedLines | app.js:72-88 | the new buffer and selection are `EditLines` of the old ones, and the selection stays inside the buffer |
| LineEdit.Editor.Indent | app.js:180 | the indent button; unless the selection starts at 0 on a buffer starting with a line feed, only the touched lines change, and the buffer grows by two characters per touched line |
| LineEdit.Editor.Outdent | app.js:183 | the outdent button applies `EditLines` with the outdent transform |
| LineEdit.Editor.InsertTab | app.js:189-198 | Tab replaces the selection with two spaces and puts the caret after them; the length changes by two minus the selection's length |
| LineEdit.IndentOutdentEditor | app.js:180-183 | pressing indent and then outdent on the same editor gives back its buffer, unless the selection starts at 0 on a buffer starting with a line feed |
| Punctuation.DropBlanksBeforeNewline | app.js:92 | `/[ \t]+\n/g` removes only whitespace and leaves no space or tab before a line feed; what happens at each point of the text is stated by `DropBlanksWord`, `DropBlanksRun` and `DropBlanksKeeps` |
| Punctuation.DropBlanksWord | app.js:92 | a character other than a space or a tab is kept, and the pass goes on after it |
| Punctuation.DropBlanksRun | app.js:92 | a run of spaces and tabs right before a line feed is removed, and the pass goes on after the line feed |
| Punctuation.DropBlanksKeeps | app.js:92 | a run of spaces and tabs before anything but a line feed, or at the end, is kept |
| Punctuation.DropBlanksSquash | app.js:92 | `/[ \t]+\n/g` keeps every word and every gap |
| Punctuation.DropBlanksNewlines | app.js:92 | `/[ \t]+\n/g` keeps every line feed |
| Punctuation.DropBlanksSettled | app.js:92 | `/[ \t]+\n/g` leaves a text unchanged when no space or tab stands before a line feed |
| Punctuation.CollapseWs | app.js:92 | `/\s{2,}/g` removes only whitespace and leaves no two whitespace characters side by side; `CollapseWsWord` and `CollapseWsRun` together state the result character by character and run by run |
| Punctuation.CollapseWsWord | app.js:92 | a character other than whitespace is kept, and the pass goes on after it |
| Punctuation.CollapseWsSquash | app.js:92 | `/\s{2,}/g` keeps every word and every gap |
| Punctuation.CollapseWsRun | app.js:92 | a whitespace run before a word becomes one space when it has two or more characters and is kept otherwise |
| Punctuation.CollapseWsSettled | app.js:92 | `/\s{2,}/g` leaves a text without doubled whitespace unchanged |
| Punctuation.Clean | app.js:92 | step 1 removes only whitespace, keeps the words and the gaps between them, leaves no doubled whitespace, trims both ends, is empty exactly for all-whitespace input, and on a text with no blank before a line feed and no doubled whitespace is exactly `trim` |
| Punctuation.DropWsBeforeMark | app.js:96 | `/\s+([,.;!?])/g`: the text starts with a mark exactly when its first non-whitespace character is a mark; `DropWsBeforeMarkWord`, `DropWsBeforeMarkDrops` and `DropWsBeforeMarkKeeps` together state the result character by character and run by run |
| Punctuation.DropWsBeforeMarkWord | app.js:96 | a character other than whitespace is kept, and the pass goes on after it |
| Punctuation.DropWsBeforeMarkDrops | app.js:96 | a whitespace run before a mark is dropped and the mark kept |
| Punctuation.DropWsBeforeMarkKeeps | app.js:96 | a whitespace run before a character that is not a mark is kept |
| Punctuation.DropWsBeforeMarkSettled | app.js:96 | a text with no whitespace before a mark passes unchanged |
| Punctuation.DropWsBeforeMarkTight | app.js:96 | after this pass no whitespace character stands right before a mark |
| Punctuation.DropWsBeforeMarkVisible | app.js:96 | this pass removes only whitespace |
| Punctuation.DropWsBeforeMarkNoDoubleWs | app.js:96 | this pass creates no doubled whitespace |
| Punctuation.SpaceAfterMark | app.js:97 | `/([,.;!?])(\S)/g` keeps the first character and never shortens the text; `SpaceAfterMarkPair` and `SpaceAfterMarkKeep` together state the result match by match |
| Punctuation.SpaceAfterMarkPair | app.js:97 | a mark and the non-whitespace character after it get a space between them, and matching goes on after that character, so matches do not overlap |
| Punctuation.SpaceAfterMarkKeep | app.js:97 | any other character is kept, and matching goes on right after it |
| Punctuation.SpaceAfterMarkOnly | app.js:97 | the only characters the pass adds are spaces between a mark and a non-whitespace character: taking every such space out gives the same text before and after the pass |
| Punctuation.SpaceAfterMarkVisible | app.js:97 | this pass inserts only whitespace |
| Punctuation.SpaceAfterMarkSpaced | app.js:97 | afterwards whitespace (a space, or a single line feed or tab already there) follows every mark, except where a non-whitespace character follows a mark that comes right after another mark and a space: the match consumed that mark as its second character (`"?!a"` gives `"? !a"`) |
| Punctuation.SpaceAfterMarkNoDoubleWs | app.js:97 | on a text without doubled whitespace, this pass creates none |
| Punctuation.CapitalizeIFrom | app.js:98 | the `\bi\b` scan keeps the length |
| Punctuation.CapitalizeIFromAt | app.js:98 | the `\bi\b` scan capitalises position k exactly when it holds `i` with a non-word character or the text edge on each side |
| Punctuation.CapitalizeStandaloneI | app.js:98 | every standalone `i` becomes `I`, and every other character is kept |
| Punctuation.SplitFrom | app.js:100-101 | the split keeps its captured separators: it yields an odd number of pieces whose concatenation is the input |
| Punctuation.SplitFromSeparators | app.js:100-101 | every odd-numbered piece of the split is a captured separator `[.!?]\s+` |
| Punctuation.CapitalizeChunk | app.js:102 | `^\s*([a-z])`: when the first non-whitespace character is a lower-case letter, the leading whitespace and that letter are replaced by its capital and the rest is kept; otherwise the piece is unchanged. So it never lengthens a piece and keeps a whitespace-only piece |
| Punctuation.SentenceCase | app.js:100-103 | step 5 never lengthens the text |
| Punctuation.SplitSentences | app.js:100-101 | `split(/([.!?]\s+)/)` loses nothing: the pieces concatenate to the text |
| Punctuation.SentenceCaseIsScan | app.js:100-103 | split, capitalise each piece and join is the same as one left-to-right scan, when the text starts with non-whitespace |
| Punctuation.CapScanAt | app.js:100-103 | the scan upper-cases a lower-case letter exactly where a sentence begins: at the start of the text or after `[.!?]` and whitespace |
| Punctuation.SentenceCaseAt | app.js:100-103 | step 5 changes position j exactly when a sentence begins there and it holds a lower-case letter |
| Punctuation.Terminate | app.js:105 | the text ends in `.`, `!` or `?`; a `.` is appended exactly when it did not already end so |
| Punctuation.Normalize | app.js:91-107 | the normaliser returns `""` exactly for empty or all-whitespace input, and otherwise a text ending in `.`, `!` or `?` |
| Punctuation.NormalizeMarkPair | app.js:91-107 | `"a!?b"` normalises to `"A! ?b."`: the space goes after the `!` only, because that match consumed the `?` |
| Punctuation.NormalizeSpacing | app.js:96-105 | in the output, short of its last character, whitespace follows every mark (a space, or a single line feed or tab kept from the input) except a mark that itself follows a mark and a space |
| Punctuation.NormalizeShape | app.js:91-107 | any other input gives a non-empty text that starts with non-whitespace, has no two adjacent whitespace characters and ends in a terminal mark |
| Punctuation.NormalizeCapitals | app.js:96-105 | in the output no sentence begins with a lower-case letter and no standalone lower-case `i` remains |
| Punctuation.CleanNoWs | app.js:92 | step 1 leaves a non-empty text without whitespace unchanged |
| Punctuation.SentenceCaseNoLower | app.js:100-103 | step 5 leaves a text without lower-case letters unchanged |
| Punctuation.NormalizeNotIdempotent | app.js:91-107 | `"a,"` normalises to `"A,."`, which normalises to `"A, ."`: normalising again can change the text |
| Accounts.NoteKey | app.js:38 | the note key is the fixed prefix followed by the lower-cased email |
| Accounts.NoteKeySame | app.js:38 | two emails share a note key exactly when they agree up to letter case |
| Accounts.NormalEmail | app.js:135 | the trimmed, lower-cased email is already lower-case and is empty exactly for an all-whitespace field |
| Accounts.EmailTaken | app.js:144 | `some` is true exactly when a stored user has that email |
| Accounts.FindUser | app.js:161 | `find` returns nothing exactly when no stored user has that email and password; otherwise it returns the first user who has both |
| Accounts.AppendKeepsUnique | app.js:143-150 | appending a user whose email is not taken keeps stored emails unique |
| Accounts.FindAppended | app.js:149-161 | a user appended with a fresh email is what `find` returns for that user's credentials |
| Accounts.FindByEmail | app.js:161 | with unique emails, login under a stored email succeeds exactly when the password is that user's |
| Accounts.Registry.SignUp | app.js:132-151 | an empty trimmed name, normalised email or password fails first; then an email already stored fails; otherwise the user is appended and becomes current. Failures change nothing, and unique well-formed users stay so |
| Accounts.Registry.Login | app.js:156-170 | the first user with the normalised email and exact password becomes current as `{ name, email }`; otherwise nothing changes. The user list is kept |
| Accounts.Registry.Logout | app.js:172-176 | the current user is removed and the user list is kept |
| Accounts.SignUpThenLogin | app.js:132-167 | after a successful sign-up, logging in with the same password and an email that normalises the same logs the new user in |

## Left out

- Storage plumbing is not modelled. This covers `getSafeStorage` with its
  `localStorage` or in-memory fallback, the JSON encoding of the user list
  and current user, and reading and writing notes (`loadUserNote`,
  `saveUserNote`). The stored list and current user are the fields of
  `Accounts.Registry`. The save after each line edit is not modelled.
- The DOM and view code is not modelled: element look-ups, view switching,
  tab switching, status and auth messages, and event wiring. The
  punctuation button's assignment of the normalised text back into the
  editor (app.js:184-187) is wiring around `Punctuation.Normalize`.
- The download button and the clock (`toLocaleTimeString`, `toISOString`)
  are not modelled. They are browser calls and non-deterministic values.
- JavaScript's `\s`, `trim`, `toUpperCase` and `toLowerCase` follow
  Unicode. `\s` and `trim` strip the same Unicode whitespace set. The
  model reads them over ASCII: whitespace is space, tab, line feed,
  carriage return, vertical tab and form feed, and only A-Z and a-z change
  case. `\b` needs no such reading. Without the `u` flag its word
  characters are exactly `[A-Za-z0-9_]`, as `IsWordChar` has them.
- String positions are Unicode scalar values. Dafny's `char` is a Unicode
  scalar value, while `selectionStart`, `length`, `slice` and `indexOf`
  count UTF-16 code units. Characters outside the Basic Multilingual Plane
  therefore count as one position instead of two, and a lone surrogate
  cannot be represented.
- Passwords are compared and stored in plain text. The model makes no
  security claim.
- Login and sign-up read a missing form field as `""`. The model takes the
  field texts as parameters.
- Punctuation.Normalize: the worked examples
  `"hello   world ,how are  you"` → `"Hello world, how are you."` and
  `"i am happy. i am fine"` → `"I am happy. I am fine."` are not proved
  as concrete cases. Evaluating the passes on a literal of that length is
  beyond the solver's resource bound. What the model proves instead:
  - each pass's laws: the run and word laws of step 1 and of step 3, and
    `SpaceAfterMarkOnly` with the match laws;
  - the output's shape and capitals, in `NormalizeShape` and
    `NormalizeCapitals`;
  - three short concrete runs, in `NormalizeNotIdempotent` and
    `NormalizeMarkPair`.

## Findings

| source | as written | input that shows it | evidently intended | confidence | as-written member | corrected member |
|---|---|---|---|---|---|---|
| app.js:76 | `lastIndexOf("\n", Math.max(start - 1, 0)) + 1` looks at position 0 even when the caret is at 0, so a leading line feed puts the block start past the caret (block (1, 0)) | `"\nabc"` with the caret at 0: indent gives `"\n  \nabc"` (the line feed is duplicated), and outdent then gives `"\n\nabc"` | the block of the empty first line, (0, 0): indent gives `"  \nabc"`, and outdent after indent restores the buffer | high; not executed | LineEdit.IndentDuplicatesLeadingNewline | LineEdit.SelectBlockFixed |
