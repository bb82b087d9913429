# Notes app: note log and screen state

A model of `App.js`, the single screen of a note-taking app that keeps all
notes in one text file on Dropbox. The whole history is one blob in which
notes are separated by the delimiter `"\n\n----------\n\n"`. A send reads the
blob, puts the new note plus the delimiter in front of it and uploads the
result. The screen shows the blob split on the delimiter and then reversed,
so the newest note is the last item. Item i gets the key `"i"`.

- `Keys.dfy` (module `Keys`): item keys as decimal numerals, with their inverse.
- `StringSplit.dfy` (module `StringSplit`): JavaScript's `String.prototype.split`
  for a non-empty string separator, with `indexOf` and `join`. The lemmas cover:
  - the split/join identity;
  - an exact characterisation of split, in both directions;
  - the number of pieces compared with the separator occurrences.
- `NoteLog.dfy` (module `NoteLog`): the pure part of the screen. It holds the
  delimiter, reverse, the parse of a blob into display items (`Parse`) and the
  blob composition of a send (`Compose`). The lemmas cover the key layout and
  what one send adds to the list.
- `Optional.dfy` (module `Optional`): the `Option` type, used for JavaScript's
  `null` state and for a search that finds nothing.
- `App.dfy` (module `Screen`): the component's state record as class `App`.
  It has one method per handler step: mount, load, typing, the two halves of
  a send, and the two halves of a login. It also has the screen selection of
  `render`. Remote reads, uploads and the OAuth prompt are parameters that
  carry their outcome.

The delimiter has borders: `"\n"` and `"\n\n"` are both a prefix and a suffix
of it. So a note ending in `"\n\n----------"` makes the leftmost delimiter
occurrence start inside the note. Because of this, "a send adds exactly one
item" (`NoteLog.ComposeAddsOneItem`) requires that no delimiter occurrence
start inside the note when the delimiter follows it. `NoteLog.StraddlingNoteIsMangled`
shows a note for which the requirement fails and the displayed items differ.

`App.js` reverses the split pieces before numbering them, so the most recent
note is the LAST item (the one with the highest key), and the list scrolls to
the end to show it.

## Model

| member | source | states |
|---|---|---|
| `Keys.DecimalString` | App.js:136-143 | the key of an item is a non-empty string of decimal digits with no leading zero |
| `Keys.DecimalRoundTrip` | App.js:136-143 | reading a key back as a decimal number gives the item's index |
| `Keys.KeysDistinct` | App.js:136-143 | two indices get the same key exactly when they are equal |
| `StringSplit.IndexOf` | App.js:139 | the search `split` performs from a position: a result is an occurrence of the separator at or after that position |
| `StringSplit.IndexOfIsLeftmost` | App.js:139 | the search finds the leftmost occurrence at or after the position, and finds nothing only when no occurrence starts there or later |
| `StringSplit.IndexOfFinds` | App.js:139 | an occurrence with none before it, from the start position on, is exactly what the search returns |
| `StringSplit.Split` | App.js:139 | splitting with a string separator always yields at least one piece |
| `StringSplit.SplitJoin` | App.js:139 | joining the pieces with the delimiter gives back the fetched text exactly |
| `StringSplit.SplitIsSplitOf` | App.js:139 | the pieces join to the text; no occurrence starts inside a piece that the separator follows; the last piece has none |
| `StringSplit.SplitCharacterised` | App.js:139 | a sequence of pieces is the split of a text if and only if it meets the conditions above, so the split is the only one that does |
| `StringSplit.SplitPiecesFree` | App.js:139 | no piece contains the delimiter |
| `StringSplit.SplitFree` | App.js:139 | a text without the delimiter, the empty text included, splits into itself alone |
| `StringSplit.SplitPrefix` | App.js:139 | a piece with no occurrence starting inside it, followed by the separator, is the first piece, and the split goes on with the rest |
| `StringSplit.SplitCount` | App.js:139 | the number of pieces is one more than the number of left-to-right, non-overlapping occurrences |
| `StringSplit.OccurrencesSound` | App.js:139 | the counted occurrences are real and strictly ordered without overlap; none is skipped: no occurrence starts before the first, between the end of one and the next, or after the end of the last; none counted means none exist |
| `StringSplit.SplitFirstPiece` | App.js:139 | the first piece is the text before the leftmost occurrence, or the whole text |
| `NoteLog.Delimiter` | App.js:18 | the separator between two notes, `"\n\n----------\n\n"` |
| `NoteLog.Parse` | App.js:135-148 | the notes shown for a text are the items of its split on the delimiter; there is always at least one, one per piece |
| `NoteLog.Items` | App.js:139-146 | the pieces reversed, then numbered; one item per piece |
| `NoteLog.Numbered` | App.js:136-146 | the `map` with a counter `key` starting at 0: each value in order, keyed by `"" + key++` (its contract is stated by `NoteLog.NumberedItem`) |
| `NoteLog.NumberedItem` | App.js:136-146 | item i of the numbered list is value i with the numeral of i as key, and no other item has that key |
| `NoteLog.Reverse` | App.js:140 | item i of the reversed list is item n-1-i of the original, and the length is kept |
| `NoteLog.ReverseCons` | App.js:140 | reversing a list with a piece in front puts that piece last and the rest reversed before it |
| `NoteLog.NumberedSnoc` | App.js:141-146 | numbering a list with one more value at the end keeps every earlier item and keys the new one by the old length |
| `NoteLog.ItemsCons` | App.js:139-146 | one more piece in front of the split shows every earlier item unchanged and one more item at the end, keyed by the old count |
| `NoteLog.Compose` | App.js:169 | the uploaded blob is the note, then one delimiter occurrence right after it, then the old blob unchanged |
| `NoteLog.ParseShape` | App.js:135-148 | there is one more item than delimiter occurrences; item i has key "i" and holds piece n-1-i |
| `NoteLog.ParseKeysDistinct` | App.js:136-146 | two items have the same key exactly when they are the same item |
| `NoteLog.ParseValuesFree` | App.js:138-146 | no displayed note contains the delimiter |
| `NoteLog.ParseFree` | App.js:138-146 | a text without the delimiter, `""` included, is the single item with key "0" and the whole text as value |
| `NoteLog.ParseLastIsNewest` | App.js:139-141 | the last item is the text before the first delimiter, which is the newest note |
| `NoteLog.ParseJoined` | App.js:138-146 | notes joined with the delimiter, when split would give them back, are shown oldest first with keys "0" to "n-1" |
| `NoteLog.ParseNewestFirst` | App.js:135-148 | a text whose split is one newer piece before the split of an older text shows the older text's items, then the newer piece as the last item |
| `NoteLog.ParseTwoPieces` | App.js:135-148 | a text that splits into two pieces shows the second (older) piece with key "0" and the first (newer) piece with key "1" |
| `NoteLog.ComposeAddsOneItem` | App.js:169-182 | if no delimiter occurrence starts inside the new note, the notes after a send are the old items unchanged plus one item with key n and the note as value |
| `NoteLog.SendToEmptyLog` | App.js:159-186 | sending "hello" to an empty log uploads "hello" plus the delimiter and shows "" then "hello" |
| `NoteLog.StraddlingNoteIsMangled` | App.js:169 | a note ending in "\n\n----------" is not shown as its own item: the items become "----------\n\n" and "a" |
| `Screen.LoginErrorMessage` | App.js:213 | the fixed text shown after an unsuccessful login |
| `Screen.Truthy` | App.js:36 | JavaScript truthiness of the nullable token or error: present and not the empty string |
| `Screen.SelectView` | App.js:53-119 | blank exactly while loading; otherwise the notes screen exactly when the token is truthy, with Send enabled exactly when no send is in flight; otherwise the login screen, which shows the error exactly when one is set |
| `Screen.App.Render` | App.js:43-120 | what `render()` shows: the screen `SelectView` picks for the state's fields |
| `Screen.App.NotesWellFormed` | App.js:135-148 | in every reachable state the shown list has item i keyed by the numeral of i, keys that identify items, and no note containing the delimiter |
| `Screen.App.constructor` | App.js:21-28 | the initial state: no token, loading, no send in flight, no error, no notes; the screen is blank |
| `Screen.App.Mount` | App.js:30-38 | the stored token becomes the session and loading ends; a load of the notes starts exactly when the token is truthy; nothing else changes |
| `Screen.App.SetFileContents` | App.js:135-148 | the notes become the parse of the given text; nothing else changes |
| `Screen.App.LoadNotes` | App.js:130-133 | a fetched log becomes the notes and the log they are derived from; a failed read changes nothing |
| `Screen.App.ChangeText` | App.js:99 | typing replaces the input text and nothing else |
| `Screen.App.StartSend` | App.js:159-164 | the typed text is captured, the input is cleared, the send is marked in flight and Send is disabled |
| `Screen.App.FinishSend` | App.js:166-192 | after a read, the upload carries exactly note + delimiter + old text, and no upload follows a failed read; on success the new blob is the log and the notes are its parse; on any failure the input is the captured text again and the notes are unchanged; the send is over either way |
| `Screen.App.Send` | App.js:159-193 | a whole send: on success the input is empty and the notes show the new blob; on failure the input and the notes are as before; Send is enabled again |
| `Screen.App.StartLogin` | App.js:195-198 | the error message is cleared |
| `Screen.App.FinishLogin` | App.js:202-215 | a success persists and adopts the redirect's token and starts a load of the notes; anything else sets the fixed message, keeps the token, persists nothing and loads nothing |
| `Screen.App.Login` | App.js:195-216 | a whole login: on success the token is adopted, no error is shown and a load of the notes starts; otherwise no load starts, the error is exactly "Could not login to Dropbox. Please try again." and the token is unchanged |
| `Screen.StartupWithStoredToken` | App.js:30-38 | with a stored token the notes screen shows the fetched log without a login; if the read fails, the screen shows no notes |
| `Screen.SendHelloToEmptyLog` | App.js:159-186 | an app with "hello" typed, sending to an empty log, uploads "hello" plus the delimiter and then shows "" and "hello" with an empty input |

## Left out

- Dropbox calls (`filesGetTemporaryLink`, `filesUpload`, `File`) and `fetch` are network I/O. Their results are the parameters `Fetched` and `Uploaded`, and the model returns the blob handed to the upload.
- `AsyncStorage` and the `AuthSession` OAuth flow are platform services. This includes building the auth and redirect URLs. The stored token is a parameter of `Mount`, the redirect result is an `AuthResult`, and the value written to storage is returned.
- A missing `access_token` in a successful redirect is not modelled. A failing `AsyncStorage.setItem` is not modelled either.
- The keyboard listener, `setTimeout` and `scrollToEnd` only affect UI timing.
- Styles and JSX layout are out of scope. Only which screen shows, with what data, is modelled.
- Concurrency and async interleavings are not modelled:
  - input typed while a send is in flight (`FinishSend` keeps whatever the input holds on success);
  - overlapping sends from another device, where the last writer wins;
  - the race between the initial load and a send.
- `split` with an empty separator, and its `limit` argument, are not modelled: the delimiter is a non-empty constant and no limit is passed. Where the ECMAScript algorithm resumes its search at the index after an occurrence, the model splits the remaining text, which yields the same pieces.
- Screen.App.LoadNotes: the unguarded read in `_createDropboxObject` ends in an unhandled promise rejection; the model treats it as no state change.
- Screen.App.Send: assumes nothing is typed between the start and the end of the send; `StartSend` and `FinishSend` model the two halves separately.
- Screen.App.constructor: `inputText` starts as `""`, not `null`. In JavaScript, sending a `null` input would upload the text `"null"`.
