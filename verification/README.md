# ContactBook — a Dafny model of the contact list manager

The repository is a browser contact list: a `ContactBook` object holds an
ordered collection of contacts (`nom`, `prenom`, `email`, `telephone`, plus an
`id` and a `createdAt` stamp), and writes the whole collection to local
storage under the key `contactBook` after every change. Contacts are added
from a four-field form and can be replaced wholesale by importing a JSON file.

This project models the logic in `js/script.js`:

- `json.dfy` (`Json`): the JSON values `JSON.parse` yields, JavaScript
  truthiness (`!x`) and property access (`x.key`, with `undefined` as `None`).
- `validation.dfy` (`Validation`): the `\s` character class, `trim`, the
  email pattern `^[^\s@]+@[^\s@]+\.[^\s@]+$` read literally as a ghost
  predicate, its structural characterisation (no whitespace, exactly one `@`,
  non-empty local part, a `.` inside the domain that is neither its first nor
  its last character), and `validateForm`.
- `import_validation.dfy` (`ImportValidation`): the check the import runs
  before replacing the collection, with the first failing element and its
  1-based position.
- `render.dfy` (`Render`): the rows `render` produces.
- `contact_store.dfy` (`ContactStore`): the `ContactBook` class (a `seq`
  field for the collection, a `LocalStorage` object whose map stands for the
  browser's storage), `handleSubmit`, and the export guard.

`Date.now()`, `new Date().toISOString()` and the result of `JSON.parse` on an
imported file are parameters. Storage holds each key's decoded collection;
the JSON text is not modelled.

Three behaviours of the code that one might expect otherwise:

- Loading does not recover from a malformed non-empty snapshot. `JSON.parse` throws at line 14, and nothing catches it. An empty stored text is falsy and loads as the empty collection, like a missing key.
- Import does not require `telephone`. `addContact` via `handleSubmit` does.
- No `count` operation exists on `ContactBook`. See "Findings".

## Model

| member | source | states |
|---|---|---|
| `Validation.TrimShape` | js/script.js:156-159 | `trim` yields the slice left after cutting the whitespace at both ends: everything cut is whitespace, and a non-empty result neither starts nor ends with whitespace |
| `Validation.TrimEmptyIff` | js/script.js:163 | a trimmed field is non-empty exactly when the field holds a non-whitespace character |
| `Validation.PatternIsShaped` | js/script.js:166 | every string the email pattern matches has no whitespace, exactly one `@`, a non-empty local part and an inner `.` in the domain |
| `Validation.ShapedIsPattern` | js/script.js:166 | every string of that shape is matched by the email pattern |
| `Validation.EmailPatternCharacterised` | js/script.js:166 | the email pattern holds if and only if the string has that shape |
| `Validation.EmailExamples` | js/script.js:166 | the pattern accepts `a@b.co` and rejects `a@b` and `a.b.com` |
| `Validation.ValidateForm` | js/script.js:155-169 | the submit button is enabled exactly when all four fields hold a non-whitespace character and the trimmed email matches the pattern |
| `ImportValidation.FirstRejectedSpec` | js/script.js:108-112 | the validation loop finishes exactly when every element has truthy `nom`, `prenom` and `email`; otherwise it stops at the first element that does not |
| `ImportValidation.FirstRejectedAt` | js/script.js:108-110 | the first invalid index is unique, so it is the one the loop stops at |
| `ImportValidation.CheckImport` | js/script.js:100-112 | a parse failure and a non-array are reported as such; an array is accepted iff every element is acceptable and is then installed unchanged; a rejection names the first invalid element, as a TypeError when it is `null` and with its 1-based position otherwise |
| `ImportValidation.RejectionReported` | js/script.js:108-110 | conversely, the first invalid element is always the one reported: position `k + 1` for index `k`, or the TypeError for `null` |
| `ImportValidation.TelephoneIgnored` | js/script.js:109 | changing or removing `telephone` in any element never changes the import's verdict |
| `ImportValidation.SecondContactRejected` | js/script.js:108-110 | a file whose second contact has an empty `nom` is rejected at position 2 |
| `Render.Rows` | js/script.js:55-63 | the row structure exists exactly when no contact is `null`; then there is one row per contact, in order, holding its `nom`, `prenom` and `email` (the string conversion of a cell is not modelled) |
| `Render.Render` | js/script.js:44-63 | an empty collection renders as the placeholder row alone; a non-empty one renders as its contact rows, never with the placeholder |
| `Render.RowsAppend` | js/script.js:55-63 | appending a contact appends its row and leaves the earlier rows unchanged |
| `Render.TelephoneNotShown` | js/script.js:57-61 | a row does not depend on `telephone` |
| `ContactStore.StampedFormContents` | js/script.js:29-31 | the contact added for a form holds exactly the trimmed four fields, the given `id` and the given `createdAt` |
| `ContactStore.ContactBook.constructor` | js/script.js:3-5 | a new book starts from the stored collection, or from the empty one when nothing is stored |
| `ContactStore.ContactBook.LoadFromLocalStorage` | js/script.js:12-15 | with no value under `contactBook` the result is empty; otherwise it is exactly the stored collection |
| `ContactStore.ContactBook.SaveToLocalStorage` | js/script.js:20-22 | the snapshot under `contactBook` becomes the whole collection; no other key changes |
| `ContactStore.ContactBook.AddContact` | js/script.js:28-34 | the length grows by one, the earlier contacts stay in order, the last is the contact stamped with `id` and `createdAt`, and the snapshot equals the collection |
| `ContactStore.ContactBook.ImportFromJSON` | js/script.js:98-120 | all or nothing: the outcome is `CheckImport`'s verdict; on success the collection becomes the imported array and the snapshot equals it; on failure neither the collection nor storage changes |
| `ContactStore.HandleSubmit` | js/script.js:175-195 | the contact is added exactly when all four fields hold a non-whitespace character, and then with the trimmed values; otherwise nothing changes |
| `ContactStore.EnabledFormIsAccepted` | js/script.js:166-168 | every form `validateForm` enables is one `handleSubmit` adds |
| `ContactStore.SubmitSkipsEmailCheck` | js/script.js:186-191 | `handleSubmit` alone would add a form whose email (`a@b`) the button's check rejects |
| `ContactStore.ImportedCollectionRenders` | js/script.js:114-116 | no element of an accepted import is `null`, so the row structure exists, with one row per imported contact |
| `ContactStore.AddedContactRendersLast` | js/script.js:31-33 | after an add, the rendered rows are the earlier rows plus the new contact's row |
| `ContactStore.ExportContactsAsWritten` | js/script.js:200-206 | the export guard as written never reaches the download |
| `ContactStore.ExportContacts` | js/script.js:200-206 | with the count read as the collection's length, nothing is exported exactly when the collection is empty, and otherwise the whole collection is |
| `ContactStore.ExportAsWrittenDiverges` | js/script.js:201 | on every collection the written guard behaves differently from the intended one |

## Left out

- DOM work: `render`'s `innerHTML`/`appendChild`, the modal, keyboard and click listeners, `console.log`. They are UI glue. Only the row structure is modelled.
- `escapeHtml` (js/script.js:71-75). It hands escaping to the browser's HTML serialiser, whose rules are not in this repository. Cells hold the raw property values.
- `showMessage` and the texts of the messages. Outcomes are datatype values (`ImportError`, `SubmitOutcome`, `ExportAction`) instead.
- `FileReader`'s asynchronous load, `JSON.parse`, `JSON.stringify`, and the `Blob`/object-URL download of `exportToJSON`. These are platform calls. The parsed value is a parameter, and the snapshot is the decoded collection.
- `Date.now()` and `toISOString()`. They are parameters. Nothing proves `id` unique, and the code does not ensure it.
- A snapshot whose text is malformed or not an array. Neither can be represented, because the stored value is the decoded collection. In the code a malformed non-empty text makes `JSON.parse` throw at js/script.js:14. An empty text `""` is falsy, so line 14 returns `[]` without parsing; the model's absent key stands for it.
- Numbers are reals, so non-finite numbers are not represented. `JSON.parse` turns an out-of-range literal such as `1e400` into `Infinity`. That value is truthy and passes the import check, but `JSON.stringify` at js/script.js:21 writes it as `null`. After such an import the real snapshot differs from the collection, which the model cannot show.
- Storage writes never fail in the model. In the browser `localStorage.setItem` at js/script.js:21 can throw, when storage is full or disabled.
- ContactStore.ContactBook.ImportFromJSON: all-or-nothing and the synced snapshot hold only because the save cannot fail. When the save at js/script.js:115 throws, `this.contacts` has already been replaced at line 114. The error is caught at lines 118-119 and reported as an import error, yet the collection is the imported array and the snapshot is the old one.
- ContactStore.ContactBook.ImportFromJSON: the outcome is `CheckImport`'s verdict only when the `render` at js/script.js:116 does not throw. On an accepted file with a shown field that cannot be turned into a string, such as `{"nom":{"toString":0},"prenom":"a","email":"b"}`, lines 114-115 have already replaced and saved the collection. The TypeError from `escapeHtml` is then caught at lines 118-119 and reported as an import error, while the collection and the snapshot hold the imported array. The model reports `Pass`.
- ContactStore.ContactBook.AddContact: the synced snapshot holds only because the save cannot fail. When the save at js/script.js:32 throws, the contact pushed at line 31 stays in the collection and the snapshot is the old one. The exception escapes `addContact` and `handleSubmit`.
- JavaScript strings are UTF-16, and strings here are sequences of Unicode scalar values. `\s` and `trim` treat both the same way, because no whitespace character lies outside the basic plane.
- Render.Rows: when a contact is `null`, the model gives no rows at all. The code throws after appending the rows of the contacts before it.
- Render.Rows: the string conversion of a cell is not modelled. `escapeHtml` sets `textContent` (js/script.js:73), which throws a TypeError on a shown field holding an object that cannot be turned into a string, such as the parsed `{"toString":0}`: its own `toString` is not callable and the inherited `valueOf` returns the object itself. The model still gives that contact a row.
- ContactStore.ImportedCollectionRenders: it promises only the row structure. An accepted file such as `[{"nom":{"toString":0},"prenom":"a","email":"b"}]` makes the `render` call at js/script.js:116 throw in `escapeHtml`.
- ContactStore.ContactBook.constructor: the first `render` is not modelled. That call can throw on a stored collection that holds `null`.
- ContactStore.HandleSubmit: `closeModal` and the success message are not modelled. Neither is a `render` that throws after the add has already been saved.

## Findings

| source | as written | input that shows it | evidently intended | confidence | as-written member | corrected member |
|---|---|---|---|---|---|---|
| js/script.js:201 | `exportContacts` calls `contactBook.getCount()`, which `ContactBook` does not define, so the click handler throws a TypeError and nothing is exported (the same call at line 272 throws at the end of start-up) | any collection, e.g. one holding a single contact | refuse with "nothing to export" when the collection is empty, otherwise export the whole collection | high; not executed | `ContactStore.ExportContactsAsWritten` (with `ContactStore.ExportAsWrittenDiverges`) | `ContactStore.ExportContacts` |
