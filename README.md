# Resume upload widget — a Dafny model

This project models the logic of the `UploadForm` React component, a widget
that lets a user pick a resume, or drag and drop one, and upload it:

- File validation. Three rules are tried in order and the first that matches
  decides. A missing file is refused. A MIME type other than PDF or DOCX is
  refused. A size over 2 MiB (2,097,152 bytes) is refused. Otherwise the file
  becomes the selection and the error is cleared.
- The widget state. The fields are `file`, `error`, `loading` and
  `isDragging`. The drag handlers set and clear the highlight. A drop
  validates the first dropped file, exactly as the file input's change event
  does.
- The upload. It refuses to start without a selected file. Otherwise it sets
  `loading`, sends the file, and then resolves on the reply. A successful
  reply writes three keys of local storage (`parsedData`, `analyzedCount`,
  `lastUploadedFileName`) and notifies the parent component. A failed reply or
  a thrown error shows a message and changes nothing else. Every resolution
  clears `loading`.

Layout:

- `Wrappers.dfy`: `Option`.
- `Decimal.dfy`: the decimal text JavaScript produces when a number is stored
  in local storage, and a reader for it, with the round trip proved.
- `UploadForm.dfy`: the constants, the pure validation decision, the response
  datatype, the message a resolution leaves, and three classes:
  - `LocalStorage`, the persisted store, as a `map<string, string>`;
  - `Parent`, the state behind the parent's setters;
  - `Widget`, the component, with one method per handler.

The upload handler is split at its `await`. `BeginUpload` is the part before
the request and `ResolveUpload` the part after it. `HandleUpload` composes
the two. `ResolveUpload` receives the file captured when the upload started,
because the handler's closure keeps that file even if a drop changes the
selection while the request is in flight. The network reply is an input,
`Response<D>`: `Success(data)`, `LogicalFailure` (`success: false`) or
`Thrown(serverError)`.

Two behaviours of the code worth stating precisely:

- The new `analyzedCount` is the parent's in-memory count plus one (the
  `prev` of the state updater). It is not the previously persisted value
  plus one. `StoredCountAdvancesByOne` states the persisted value only under
  the hypothesis that the store and the parent agreed beforehand.
- A thrown error whose server message is the empty string shows the generic
  network message, because the code combines the two with `||`.

## Model

| member | source | states |
|---|---|---|
| `UploadForm.Validate` | src/components/UploadForm.jsx:13-40 | a file is selected exactly when it is present, of a whitelisted type and at most 2 MiB, and then it is the input itself; a refusal always has a non-empty message; the messages follow the rule order: missing, then wrong type, then too large |
| `UploadForm.SizeBoundInclusive` | src/components/UploadForm.jsx:13-36 | with a whitelisted type, a file is accepted exactly when its size is at most 2,097,152 bytes; one byte more gives the size message |
| `UploadForm.VerdictIgnoresName` | src/components/UploadForm.jsx:26-36 | two files that agree on type and size get the same verdict, whatever their names |
| `UploadForm.AcceptanceDownwardClosed` | src/components/UploadForm.jsx:32-38 | an accepted file stays accepted at any smaller size |
| `UploadForm.ResolutionError` | src/components/UploadForm.jsx:90-96 | the message after resolution is empty exactly on success; `success: false` gives the parsing message; a thrown error gives the server's message when it is present and non-empty, else the generic network message |
| `UploadForm.StoredAfterSuccess` | src/components/UploadForm.jsx:77-87 | a successful upload adds exactly the three keys: `parsedData` holds the serialized data, `analyzedCount` holds the count's text, which reads back as the count, and `lastUploadedFileName` holds the file name; every other key keeps its value |
| `UploadForm.StoredCountAdvancesByOne` | src/components/UploadForm.jsx:81-85 | if the stored count was the text of the parent's count, the stored count read back after a success is one more |
| `UploadForm.LocalStorage.SetItem` | src/components/UploadForm.jsx:79-87 | one key is written and no other key changes |
| `UploadForm.Parent.SetParsedData` | src/components/UploadForm.jsx:78 | the parent's parsed data becomes the given data |
| `UploadForm.Parent.SetAnalyzedCount` | src/components/UploadForm.jsx:81-85 | the parent's count becomes the updated value |
| `UploadForm.Parent.SetLastFileName` | src/components/UploadForm.jsx:88 | the parent's last file name becomes the given name |
| `UploadForm.Widget.constructor` | src/components/UploadForm.jsx:6-9 | the widget starts with no file, an empty error, and both flags false |
| `UploadForm.Widget.HandleFile` | src/components/UploadForm.jsx:19-40 | acceptance sets `file` to the input and `error` to ""; every refusal sets `file` to none and `error` to the rule's message; `loading`, `isDragging` and the store are untouched; a selected file is always acceptable |
| `UploadForm.Widget.HandleFileChange` | src/components/UploadForm.jsx:42-44 | the first file of the input's list, absent when the list is empty, is validated as `HandleFile` does |
| `UploadForm.Widget.HandleDragOver` | src/components/UploadForm.jsx:46-49 | `isDragging` becomes true; nothing else changes |
| `UploadForm.Widget.HandleDragLeave` | src/components/UploadForm.jsx:51-53 | `isDragging` becomes false; nothing else changes |
| `UploadForm.Widget.HandleDrop` | src/components/UploadForm.jsx:55-59 | `isDragging` becomes false, and `file` and `error` end exactly as `HandleFileChange` leaves them for the same list |
| `UploadForm.Widget.BeginUpload` | src/components/UploadForm.jsx:61-68 | with no file, the error is the "select a file first" message, `loading` stays false and nothing is sent; otherwise the selected file is sent, `loading` becomes true and the error is cleared; only an acceptable file is ever sent; `file` is unchanged |
| `UploadForm.Widget.ResolveUpload` | src/components/UploadForm.jsx:70-98 | `loading` ends false and the error is `ResolutionError`; on success the parent gets the data, a count one higher and (if it asked) the file name, and the store is `StoredAfterSuccess`; on failure the store and the parent are unchanged; `file` is never cleared |
| `UploadForm.Widget.HandleUpload` | src/components/UploadForm.jsx:61-100 | the whole handler: a request is sent exactly when a file is selected, and only for an acceptable file; `loading` ends false on every path; without a file, store and parent are unchanged; otherwise the effects of `ResolveUpload` for the captured file |
| `Decimal.NatToString` | src/components/UploadForm.jsx:83 | the text of a count is non-empty, all digits, and has no leading zero except for 0 itself |
| `Decimal.IntToString` | src/components/UploadForm.jsx:83 | the text of a number is non-empty, starts with `-` exactly for a negative number, and is all digits otherwise |
| `Decimal.NatRoundTrip` | src/components/UploadForm.jsx:83 | the digits of a natural number read back as that number |
| `Decimal.IntRoundTrip` | src/components/UploadForm.jsx:83 | the stored text of any integer reads back as that integer |
| `Decimal.IntToStringInjective` | src/components/UploadForm.jsx:83 | two counts are stored as the same text exactly when they are equal |

## Left out

- The POST itself, its URL and the `FormData` payload with the `resume` part: network I/O through a library not modelled. The reply is an input, and the file that would be sent is `HandleUpload`'s result.
- `JSON.stringify`: the widget's `stringify` function is a parameter and is not interpreted. So is the shape of the parsed data.
- A reply with `success: true` and no `data`, and a server `error` field that is not a string: the response datatype gives every success a payload and every server message a string.
- An exception thrown inside the success branch, for example by a full local storage. Such a throw would leave some keys written and then show the catch message. The model treats the success branch as unable to throw.
- Durability of local storage across reloads, and the race between browser tabs on `analyzedCount`: the store is a map owned by one widget.
- React's batched and deferred state updates: every setter is an immediate assignment in program order. When the `analyzedCount` updater runs is not modelled; the final store is the same, because the three keys differ.
- `Decimal.IntToString`: does not model JavaScript's exponent notation for numbers of 10^21 and above, nor the precision loss above 2^53, because a count never gets there.
- Interleaving during a request: the model resolves an upload in one `ResolveUpload` call. Handlers may run between `BeginUpload` and `ResolveUpload`, but no run of such a sequence is modelled beyond what each method's contract says.
- `Widget.BeginUpload` and `Widget.HandleUpload` require `!loading`. The button is disabled while an upload is in flight; a second upload started in flight is not modelled.
- The parent component is assumed to keep its count as an integer-valued number (a string `prev` would make `prev + 1` concatenate) and to pass `setParsedData` and `setAnalyzedCount` (a missing one would throw inside the `try` and show the generic network message).
- `console.error`, `e.preventDefault()`, the click that opens the file dialog, the `accept=".pdf,.docx"` hint and all rendering: browser side effects and UI with no state of the widget behind them.
