# PDF-Note-Taker annotation core, in Dafny

PDF-Note-Taker is a browser page. It renders an uploaded PDF, lets the reader
drag highlight rectangles over a page and attach comments to them, and keeps
the comments in the browser's local storage and in a remote document store.
Almost all of `Textbook.js` is DOM wiring. This project models the
bookkeeping underneath it:

- **Fingerprint** (`fingerprint.dfy`, with `decimal.dfy`). `generatePDFId`
  hashes at most the first 20 bytes of the file with the rolling step
  `hash = ((hash << 5) - hash) + b; hash |= 0`. The accumulator is an
  unbounded `int`. JavaScript's ToInt32 and `<<` are written out explicitly.
  The id is `"pdf_"` followed by JavaScript's decimal rendering of the
  accumulator. It is proved that:
  - each step equals `31*h + b` wrapped to signed 32 bits;
  - the whole hash is the base-31 polynomial of the bytes, wrapped;
  - the id ignores every byte after the twentieth;
  - the decimal rendering is injective.
- **Comment records** (`comments.dfy`). There is one record per comment, with
  the transient `highlight` and `pageWrapper` element references. The model
  covers the five-field projection written by `saveComments` and the reload
  that resets `highlight` to null. It also covers the records built by
  `addComment` and `analyzeWithAI`, with their placeholder texts, and the
  per-page filter used when a page is rendered.
- **Drag rectangle** (`geometry.dfy`). The `mousemove` normalisation: the
  corner is the componentwise minimum and the size is the absolute difference.
- **Merge** (`sync.dfy`). Runs when the remote read of `loadComments`
  resolves. The result is the local list, followed by the remote entries
  whose (timestamp, user) key matches no local entry, in remote order.
- **Store** (`store.dfy`). The module-level `pdfId` and `comments` become the
  fields of a class `AnnotationStore`. Its methods open a document, load the
  local copy, merge the remote copy, save, add and delete. Each method's
  `ensures` ties the new list to the specification functions above. Both
  storage tiers are map values passed in and returned.

The model follows the code as written, including where it does less than its purpose suggests:

- `deleteComment` receives a position in the *whole* list (`renderComments`
  enumerates all of `comments`, Textbook.js:310-313 and 333). It is not a
  position in a page-filtered view.
- Keys are not unique after a merge. The filter looks only at the local list,
  so duplicates inside the remote list survive. Two comments added by one
  user within the same `toLocaleString` second also share a key. The model
  proves that a merge keeps keys unique only when both inputs have unique
  keys (`Sync.MergePreservesUniqueKeys`), and shows that remote duplicates
  survive (`Sync.RemoteDuplicatesKept`).
- A stored list that is not valid JSON is not treated as empty: `JSON.parse`
  at line 57 throws. The model takes the already-parsed list as input.
- A zero-length file gets the constant id `"pdf_0"` (`Fingerprint.EmptyFileId`).
  This is kept as written.

## Model

| member | source | states |
|---|---|---|
| `Decimal.NatDigits` | Textbook.js:45 | at least one digit, all decimal digits, leading digit `0` exactly for zero |
| `Decimal.DigitsRoundTrip` | Textbook.js:45 | reading the digits of n back gives n |
| `Decimal.ToDecimal` | Textbook.js:45 | a leading minus sign exactly for negative values, followed by digits with no leading zero |
| `Decimal.DecimalRoundTrip` | Textbook.js:45 | parsing the rendered string gives back the integer |
| `Decimal.DecimalInjective` | Textbook.js:45 | two integers render the same exactly when they are equal |
| `Fingerprint.Prefix` | Textbook.js:41 | the hashed bytes are the first min(20, length) bytes of the file |
| `Fingerprint.ToInt32` | Textbook.js:43 | OR-ing with 0 gives the unique value in [-2^31, 2^31) congruent to x modulo 2^32 |
| `Fingerprint.ToInt32Congruent` | Textbook.js:43 | values congruent modulo 2^32 truncate to the same 32-bit value |
| `Fingerprint.ShiftLeft5` | Textbook.js:42 | `h << 5` lies in the signed 32-bit range and is congruent to 32*h modulo 2^32 |
| `Fingerprint.Step` | Textbook.js:42-43 | one iteration lies in the signed 32-bit range and is congruent to 31*h + b modulo 2^32 |
| `Fingerprint.StepIsMul31` | Textbook.js:42-43 | `((h << 5) - h) + b` followed by the OR with 0 equals `31*h + b` wrapped to signed 32 bits, for any h |
| `Fingerprint.HashOf` | Textbook.js:40-44 | the accumulator always lies in [-2^31, 2^31) |
| `Fingerprint.HashIsPolynomial` | Textbook.js:40-44 | the rolling hash equals the base-31 polynomial of the bytes wrapped to signed 32 bits |
| `Fingerprint.GeneratePdfId` | Textbook.js:35-49 | the loop over at most 20 bytes yields `"pdf_"` + decimal of the specified hash |
| `Fingerprint.PdfId` | Textbook.js:45 | the id starts with `"pdf_"`, and a minus sign follows exactly when the accumulator is negative |
| `Fingerprint.PdfIdShape` | Textbook.js:45 | the id starts with `"pdf_"` and its remainder parses back to exactly the 32-bit accumulator |
| `Fingerprint.PdfIdInjective` | Textbook.js:45 | two files share an id exactly when their accumulators agree |
| `Fingerprint.PdfIdIgnoresTail` | Textbook.js:47 | files agreeing on their first 20 bytes get the same id |
| `Fingerprint.PdfIdOfPrefix` | Textbook.js:41 | a file and its first 20 bytes get the same id |
| `Fingerprint.EmptyFileId` | Textbook.js:40-45 | a zero-length file gets `"pdf_0"` |
| `Fingerprint.ShortCollision` | Textbook.js:40-45 | the hash is collision-prone: bytes [1, 0] and [0, 31] get the same id |
| `Geometry.DragRect` | Textbook.js:180-183 | the rectangle has non-negative size, contains both points, and each edge lies on one of the two points |
| `Geometry.DragRectSymmetric` | Textbook.js:180-183 | swapping start and current point gives the same rectangle |
| `Geometry.DragRectAtStart` | Textbook.js:171-174 | without movement it is the zero-size rectangle at the start point that `mousedown` draws |
| `Geometry.DragRectIsBoundingBox` | Textbook.js:180-183 | every rectangle containing both points contains the drag rectangle |
| `Comments.Serialize` | Textbook.js:79-85 | same length and order; each record copies exactly user, text, pageNum, highlightPos and timestamp |
| `Comments.Deserialize` | Textbook.js:58 | same length; every loaded record has null highlight and no page wrapper and carries the stored fields |
| `Comments.SerializeRoundTrip` | Textbook.js:79-85 | saving a loaded list writes back exactly what was stored |
| `Comments.DeserializeRestores` | Textbook.js:58 | loading a saved list restores every comment except its transient references |
| `Comments.SerializeIdempotent` | Textbook.js:79-85 | projecting an already-projected list gives the same list |
| `Comments.OrElse` | Textbook.js:246-247 | JavaScript's logical OR on strings keeps a non-empty string and replaces the empty one |
| `Comments.UserComment` | Textbook.js:245-258 | an empty name becomes `"Anonymous"`, an empty text `"(No text)"`, non-empty ones are kept; page, rectangle, timestamp and element references are stored |
| `Comments.AiNote` | Textbook.js:279-287 | user `"AI Analysis"`, null rectangle and highlight, an absent or empty result becomes `"(No response)"` |
| `Comments.OnPage` | Textbook.js:144 | exactly the comments of the given page, none added |
| `Comments.OnPageAppend` | Textbook.js:144 | the page filter keeps list order (distributes over concatenation) |
| `Comments.DrawAllFailsIff` | Textbook.js:144-154 | drawing a list of highlights throws exactly when one of them has a null rectangle |
| `Comments.DrawAll` | Textbook.js:144-150 | on success one rectangle per comment, in order, each the comment's own; on failure the fault names the first comment with a null rectangle and its position, every comment before it has a rectangle, and the rectangles drawn before the throw are exactly those comments' own, in order |
| `Comments.PageHighlightsAsWritten` | Textbook.js:144-150 | on failure the fault names the first comment of the page (in list order) whose rectangle is null, and the rectangles drawn before the throw are those of the page's comments before it, in order; on success every drawn rectangle belongs to a comment on the page |
| `Comments.DrawnRectsOnPage` | Textbook.js:144-150 | every rectangle the written render draws belongs to a comment of that page |
| `Comments.PageRenderFailsIff` | Textbook.js:144-154 | rendering a page's highlights throws exactly when a comment on that page has a null rectangle |
| `Comments.AiNoteBreaksPageRender` | Textbook.js:147 | after an AI note is saved and reloaded, rendering its page throws |
| `Comments.PageHighlights` | Textbook.js:144-154 | corrected render: exactly the rectangles of the page's comments that have one, never failing |
| `Comments.PageHighlightsAppend` | Textbook.js:144-154 | the corrected render keeps list order and multiplicity (distributes over concatenation) |
| `Comments.PageHighlightsAgree` | Textbook.js:144-154 | wherever the written render succeeds it draws the same rectangles as the corrected one |
| `Sync.Unseen` | Textbook.js:67-69 | exactly the remote entries whose key matches no local entry |
| `Sync.Merge` | Textbook.js:67-69 | the local list is an unchanged prefix; the appended entries are exactly the remote ones with a key absent from the local list |
| `Sync.UnseenAppend` | Textbook.js:67-69 | appended entries keep remote order |
| `Sync.UnseenSingle` | Textbook.js:67-69 | a single remote entry is appended exactly when its key is new |
| `Sync.MergeIntoEmpty` | Textbook.js:67-69 | merging into an empty list yields the remote list as is |
| `Sync.MergeLocalWins` | Textbook.js:67-69 | on a key conflict the local entry stays and no remote entry with that key is appended |
| `Sync.HasKeyExtends` | Textbook.js:68 | a key present in a list is present after appending |
| `Sync.UnseenAllKnown` | Textbook.js:67-69 | when every remote key is already local, nothing is appended |
| `Sync.MergeIdempotent` | Textbook.js:67-69 | merging the same remote list again appends nothing |
| `Sync.UnseenUnique` | Textbook.js:67-69 | filtering a remote list with unique keys keeps keys unique |
| `Sync.MergePreservesUniqueKeys` | Textbook.js:67-69 | if local and remote each have unique keys, so does the merge |
| `Sync.RemoteDuplicatesKept` | Textbook.js:67-69 | duplicates inside the remote list survive, so uniqueness is not global |
| `Store.LocalKey` | Textbook.js:56 | the local key ends with the document id |
| `Store.LocalKeyInjective` | Textbook.js:87 | different documents use different local keys |
| `Store.LoadFrom` | Textbook.js:56-61 | an absent key gives the empty list; otherwise the list saves back to exactly what was stored, with every highlight and page wrapper reset |
| `Store.SaveThenLoad` | Textbook.js:56-58 | loading what was saved restores every comment except transient references |
| `Store.SaveIsolated` | Textbook.js:87 | saving one document leaves other documents' stored lists unchanged |
| `Store.FirstLoadTakesRemote` | Textbook.js:56-69 | empty local storage plus one remote entry gives a list of exactly that entry |
| `Store.RemoveAt` | Textbook.js:350 | length drops by one; entries before the index stay, later ones shift down by one; the multiset loses exactly the removed entry |
| `Store.AnnotationStore.constructor` | Textbook.js:26-28 | no document and an empty list |
| `Store.AnnotationStore.OpenDocument` | Textbook.js:101 | the document id becomes the fingerprint of the file; the list is untouched |
| `Store.AnnotationStore.LoadLocal` | Textbook.js:52-61 | without a document nothing changes; otherwise the list becomes the stored list with highlights reset, or empty |
| `Store.AnnotationStore.MergeRemote` | Textbook.js:64-72 | called only once a document is open (the read is issued after the check at line 53); a missing remote document changes nothing; otherwise the list becomes the merge, with the old list as prefix |
| `Store.AnnotationStore.Save` | Textbook.js:76-92 | without a document nothing is written; otherwise both tiers get the projected list under the document's key and nothing else changes |
| `Store.AnnotationStore.AddComment` | Textbook.js:235-262 | exactly one user comment anchored at the drag rectangle is appended, earlier entries untouched, and the new list is saved |
| `Store.AnnotationStore.AddAiNote` | Textbook.js:279-291 | exactly one AI note is appended, earlier entries untouched, and the new list is saved |
| `Store.AnnotationStore.DeleteComment` | Textbook.js:346-353 | an index outside the list fails and changes nothing; otherwise exactly that entry is removed, its highlight returned for removal, and the list saved |

## Left out

- FileReader and Promise plumbing around the hash (lines 36-39, 46-48). `GeneratePdfId` takes the file's bytes directly.
- `localStorage`, the remote document store and `JSON.parse`/`JSON.stringify` (lines 56-57, 64-65, 87-91). Each tier is a map from key to the parsed list. A parse failure is not modelled.
- Remote read and write failures and their asynchrony. `MergeRemote` is one atomic step on the list current when it runs. So a comment added before the remote read resolves is kept, as in the page. Not captured: another document opened before the read resolves, in which case the page merges the old document's remote list into the new document's list.
- `new Date().toLocaleString()` (lines 257, 286) and the network call of `analyzeWithAI` (lines 272-278). The timestamp and `data.result` are parameters.
- `Store.AnnotationStore.AddAiNote`: models `data.result` as an optional string. A non-string result is not modelled: a falsy `0` or `false` becomes `"(No response)"`, and any other number or an object would be stored as it is.
- The error path of `analyzeWithAI` (lines 269-298) is not modelled. One `try` covers the request and everything after it. A failure in `fetch` or `response.json()` (lines 272-278) leaves the list untouched. A failure after the push at line 289 leaves the note in the in-memory list, yet still shows the failure alert and resets the button label (lines 295-297). The note is then saved to both tiers, unless it was the local write itself (line 290, reaching line 87) that threw: then it is written to neither tier. A failure after the save happens, for example, when `dragRect.remove()` at line 293 finds `dragRect` already null because the dialog was closed while the request was pending (lines 216-220).
- `Store.AnnotationStore.Save`, and with it `AddComment`, `AddAiNote` and `DeleteComment`: always write both tiers. A `localStorage.setItem` that throws at line 87 (quota exceeded, for example) is not modelled. In the page, the push (lines 259, 289) or the splice (line 350) has then already changed the in-memory list. The remote write at lines 89-91 is never issued, so memory runs ahead of both tiers, and `renderComments()` is skipped. Where the exception goes next depends on the caller. From `addComment` it reaches the add-button handler (lines 222-227), which skips closing the dialog. From `analyzeWithAI` it is caught at lines 295-297, which alert and reset the button label, and the dialog stays open. From `deleteComment` it reaches the delete-button handler (lines 331-334) and skips `renderComments()` at line 352; the sidebar then keeps the removed entry and the indices from before the splice, so the next delete click removes a different comment than the one shown.
- `parseFloat` of the drag rectangle's CSS strings (lines 252-255). Coordinates are integers. `AddComment` takes the drag start and the last pointer position, and stores `DragRect` of the two.
- DOM construction, styling, dialogs, event wiring, the `isDragging` flag and `highlightComment` show/hide/scroll (lines 118-143, 155-161, 164-232, 302-343, 356-381). The page filter and rectangle reads at lines 144-154 are modelled. These are presentation. Element references are opaque `Handle` numbers.
- Attaching highlight elements during page render (line 153, `c.highlight = highlight`). Reloaded comments keep a null `highlight` in the model. So `DeleteComment` returns None for them, where the page would remove the div drawn at render time.
- PDF.js loading and rendering and the viewport scale computation (lines 107-141). These are a third-party library and floating point.

## Findings

| source | as written | input that shows it | evidently intended | confidence | as-written member | corrected member |
|---|---|---|---|---|---|---|
| Textbook.js:147 | the page-render callback reads `c.highlightPos.left` for every comment on the page, but AI notes are saved with `highlightPos: null` (line 285) | a saved list holding an AI note on page 1, reloaded: rendering page 1 throws at that note, so the highlights of the page's later comments and the page's drag listeners (line 157) are never set up | skip comments without a rectangle when drawing highlights | high, not executed | `Comments.AiNoteBreaksPageRender` | `Comments.PageHighlights` |
