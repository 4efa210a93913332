# Land records: a Dafny model of the record core

This project models the logic of a small land-records web application. Users
upload land-ownership documents, categorize them, browse and search them, and
download or preview them. The model covers these parts of the application:

- **Upload check** (`forms.dfy`). This is the record form's `clean_document`.
  A falsy document passes through untouched. Otherwise the size is checked
  first against a limit of 10 MiB, inclusive. Then the extension (the text
  after the last `.`, lower-cased) is checked against the allow-list
  pdf, doc, docx, jpg, jpeg, png. Each failure has its own message.
- **Stored records** (`models.dfy`). This covers the `LandRecord` fields, the
  table as a map from primary key to record, and `get_file_extension`,
  `is_pdf` and `is_image`. It also covers the cascade rule for a deleted
  owner, the set-null rule for a deleted category, and the default ordering
  (newest `date_added` first).
- **Record list** (`listing.dfy`). This is `RecordListView.get_queryset`. The
  list is scoped to the requester. An optional case-insensitive search is
  OR-ed over title, property address, description and survey number. An
  optional category filter applies only when the parameter is all digits.
  Pages hold 10 records.
- **Ownership gate and mutations** (`access.dfy`). The detail, update and
  delete views look the record up and then run `test_func`. Create stamps the
  requester as owner. Update keeps the owner and re-checks the document.
- **Document delivery** (`delivery.dfy`). Download and preview look the record
  up by primary key *and* owner. The content type comes from an
  extension lookup, falling back to `application/octet-stream`. The
  `Content-Disposition` header is `attachment` or `inline` and carries the
  file's base name.
- **Search highlighter** (`highlight.dfy`). This is `highlightText` from the
  page script. It wraps the first case-insensitive occurrence of the term in a
  `<span class="bg-warning text-dark">`.

`strings.dfy` holds the string operations the code relies on: ASCII
lower-casing, Python's `split`/`join`/`isdigit`/`int`, and JavaScript's
`indexOf`. `wrappers.dfy` holds `Option` and `Result`.

Assumptions:
- Case folding and digit tests are ASCII only. This matches what SQLite's
  `LIKE` does for `icontains`.
- A Django file object is falsy exactly when its name is empty.
- `mimetypes.guess_type` and the storage path of a stored name are passed
  in as functions (`guessType`, `pathOf`).
- Paths are POSIX paths: the base name is the text after the last `/`.
  On Windows, `os.path.basename` also splits on `\`.

Three behaviours of the code are easy to miss:
- Deleting a record removes only the database row. The delete view does not
  remove the stored file.
- A page number beyond the last page is "not found". It is not an empty page.
- A non-owner is refused with "forbidden" by detail, update and delete, but
  with "not found" by download and preview (`Delivery.RefusalPoliciesDiffer`).

The upload check and the record helpers also disagree on one input. A name
with no dot whose whole lower-cased text is an allowed extension (for
example `pdf`) passes `clean_document`. Yet `get_file_extension`, and with it
`is_pdf` and `is_image`, fails on that name
(`Forms.DotlessNameAcceptedButModelFails`).

## Model

| member | source | states |
|---|---|---|
| Forms.CleanDocument | landrecords/records/forms.py:53-67 | A falsy document is returned unchanged. A size above 10485760 bytes gives "File size must be under 10MB", whatever the extension. Within the limit, the document is accepted iff its extension is on the allow-list, and otherwise gets the file-type message. An accepted document comes back unchanged. |
| Forms.TypeMessageText | landrecords/records/forms.py:61-66 | The file-type message is "Unsupported file type. Allowed types: pdf, doc, docx, jpg, jpeg, png", with the list in allow-list order. |
| Forms.UploadExtension | landrecords/records/forms.py:62 | The checked extension is the lower-cased longest dot-free suffix of the name, preceded by a dot unless it is the whole name. With no dot, it is the whole lower-cased name. |
| Forms.ExtensionAgreesWithModel | landrecords/records/models.py:49-52 | For a name containing a dot, `get_file_extension` succeeds with the same extension the upload check uses. |
| Forms.DotlessNameAcceptedButModelFails | landrecords/records/forms.py:61-63 | Every dotless name whose lower-cased form is an allowed extension (such as `pdf`) passes the upload check within the size limit, yet `get_file_extension` fails on it. |
| Forms.DotlessNameRejected | landrecords/records/forms.py:62-66 | A name without a dot is checked as a whole: within the size limit it is rejected with the file-type message whenever its lower-cased form is not an allowed extension. |
| Forms.UpperCaseExtensionAccepted | landrecords/records/forms.py:61-63 | `X.PDF` is accepted: matching ignores case. |
| Forms.ExeRejected | landrecords/records/forms.py:61-66 | A small `a.exe` is rejected with the file-type message. |
| Forms.SizeLimitInclusive | landrecords/records/forms.py:57-58 | Exactly 10485760 bytes passes. 11 MiB gives the size message. |
| Forms.SizeCheckedFirst | landrecords/records/forms.py:57-66 | Any oversized, truthy document gets the size message, so the size error wins over an extension error. |
| Models.GetFileExtension | landrecords/records/models.py:49-52 | Fails iff the name has no dot. Otherwise it gives the lower-cased dot-free text after the last dot. |
| Models.IsPdf | landrecords/records/models.py:54-56 | Fails exactly on a name without a dot. Otherwise true iff the name ends with `.pdf` in any case. |
| Models.IsImage | landrecords/records/models.py:58-61 | Fails exactly on a name without a dot. Otherwise true iff the name ends with a dot and one of jpg, jpeg, png, gif, in any case. |
| Models.ExtensionBySuffix | landrecords/records/models.py:49-52 | For a dot-free extension, `get_file_extension` yields it iff the name ends with a dot followed by it, ignoring case. |
| Strings.Split | landrecords/records/models.py:51 | `split('.')` gives at least one piece. No piece contains the separator, and joining the pieces with it gives back the name. |
| Strings.SplitHasTwoPieces | landrecords/records/models.py:51 | The `[-2:]` slice unpacks into two names iff the name contains a dot. |
| Models.PdfAndImageExclusive | landrecords/records/models.py:54-61 | `is_pdf` and `is_image` fail exactly on dotless names. `is_pdf` holds iff the extension is pdf. `is_image` holds iff the extension is one of jpg, jpeg, png, gif. The two are never both true. |
| Models.DeleteUser | landrecords/records/models.py:31 | Deleting a user removes exactly that user's records and leaves every other record as it was. |
| Models.DeleteUserIdempotent | landrecords/records/models.py:31 | Deleting the same user a second time removes nothing more. |
| Models.DeletionsCommute | landrecords/records/models.py:31-32 | The cascade on the owner and the nulling of the category are independent: deleting a user and deleting a category give the same table in either order. |
| Models.DeleteCategory | landrecords/records/models.py:32 | Deleting a category removes no record. The records pointing at it get no category, and nothing else changes. |
| Models.DeleteCategoryLeavesNoReference | landrecords/records/models.py:32 | After a category is deleted, no record refers to it, every owner is kept, and the record count is unchanged. |
| Models.DefaultOrder | landrecords/records/models.py:40-41 | The table in default order is newest first and is a permutation of the rows. |
| Listing.OwnedBy | landrecords/records/views.py:81 | Keeps exactly the requester's rows, with their multiplicity and order. |
| Listing.MatchesSearch | landrecords/records/views.py:86-91 | A record matches iff the term occurs, ignoring case, in its title, property address, description or survey number; a null survey number matches nothing. |
| Listing.SearchFilter | landrecords/records/views.py:84-91 | An empty term keeps every row. Otherwise a row is kept iff title, address, description or survey number contains the term ignoring case. A null survey number never matches. |
| Listing.CategoryFilter | landrecords/records/views.py:94-96 | Applies only to a non-empty, all-digit parameter, and then keeps the rows whose category is that number. A null category never matches. |
| Listing.ListRecords | landrecords/records/views.py:80-98 | A record is listed iff it is in the table, is owned by the requester, and passes every filter that applies. Each record is listed as often as it is stored. The list is ordered newest first and is a subsequence of the table in default order. |
| Listing.FiltersComposeByAnd | landrecords/records/views.py:85-96 | The result with both filters is the intersection of the results with each filter alone. |
| Listing.FilterOrderIrrelevant | landrecords/records/views.py:85-96 | Applying the category filter before the search gives the same rows in the same order. |
| Listing.NonNumericCategoryIgnored | landrecords/records/views.py:94-96 | A category parameter that is not all digits is ignored, not an error. |
| Listing.CategoryIdRoundTrip | landrecords/records/views.py:94-96 | The decimal text of a category id selects exactly that category's records. |
| Strings.DigitsRoundTrip | landrecords/records/views.py:95-96 | `int(str(n)) == n` for every identifier. |
| Listing.ListingIsScoped | landrecords/records/views.py:81 | No user's list contains another user's record. |
| Listing.SearchIgnoresCase | landrecords/records/views.py:86-87 | A record titled "Lakeview Plot" is found by "lake" and by "LAKE". |
| Listing.SingleOwnerScenario | landrecords/records/views.py:80-98 | With one record owned by alice, alice's list is that record and bob's list is empty. |
| Listing.NumPages | landrecords/records/views.py:78 | An empty list has exactly one page. For a non-empty list, the page count is the least n with n·10 at least the number of rows. |
| Listing.Page | landrecords/records/views.py:78 | A page exists iff its 1-based number is in range. It holds at most 10 consecutive rows starting at row (number-1)·10, and it is non-empty unless the list is empty. |
| Listing.RowOnItsPage | landrecords/records/views.py:78 | Row i appears on page i/10+1 at position i mod 10. |
| Listing.EmptyListPages | landrecords/records/views.py:78 | For an empty list, page 1 exists and is empty, and every other page number is "not found". |
| Access.CheckOwner | landrecords/records/views.py:113-115 | The detail view lets the requester in iff the record exists and they own it. A missing record is "not found" and a non-owner is "forbidden". |
| Access.OwnershipGate | landrecords/records/views.py:138-150 | For any record and any user other than its owner, detail, update and delete are refused as forbidden. The owner is let through. |
| Access.DeletedUserGate | landrecords/records/views.py:113-115 | After a user is deleted, the gate never lets that user through. Their former records are "not found" for every requester, and every other record is gated exactly as before. |
| Access.Create | landrecords/records/views.py:124-127 | A submission without a document gets "This field is required." and one the upload check rejects gets that check's message; neither changes anything. A submission with an accepted document is always saved: exactly one record is added under the new key, owned by the requester, holding every form field and the document, dated `now`, and no other record changes. |
| Access.OwnersNeverChange | landrecords/records/views.py:124-125 | No successful create, update or delete changes the owner of a surviving record. |
| Access.Update | landrecords/records/views.py:129-140 | A missing key is "not found" and a non-owner is "forbidden". For the owner, the new upload or else the stored document is re-checked by the upload check: the update succeeds iff that check accepts it, and otherwise fails with its message. On success every form field is written, the document is the chosen one, owner and date added are kept, and no other record changes. |
| Access.Delete | landrecords/records/views.py:142-154 | Only the owner may delete. Exactly that record is removed, and a refusal carries the gate's reason. |
| Delivery.Basename | landrecords/records/views.py:168 | The base name is the slash-free suffix after the last `/`. |
| Delivery.DispositionRoundTrip | landrecords/records/views.py:172 | The disposition header can be read back into exactly its mode and file name. |
| Delivery.Deliver | landrecords/records/views.py:159-172 | A file is served iff a record with that primary key is owned by the requester, and otherwise the answer is "not found". The content type is the guessed type of the file's path unless that guess is missing or empty, in which case it is `application/octet-stream`. The header names the base name of the stored file's path. |
| Delivery.Download | landrecords/records/views.py:156-174 | Only the owner gets the file, as an attachment named by the base name of its path, with the guessed or generic content type and the framing restriction kept. Anyone else gets "not found". |
| Delivery.Preview | landrecords/records/views.py:178-193 | Only the owner gets the file, inline and named by the base name of its path, with the guessed or generic content type and exempt from the framing restriction. Anyone else gets "not found". |
| Delivery.DownloadVersusPreview | landrecords/records/views.py:178-191 | Download sends `attachment; filename="<base>"` and keeps the framing restriction. Preview sends `inline; filename="<base>"` without it. Both use the same content type. |
| Delivery.RefusalPoliciesDiffer | landrecords/records/views.py:159 | For a non-owner of an existing record, the gate answers "forbidden" while download and preview answer "not found". |
| Strings.IndexOfIgnoringCase | landrecords/records/static/records/js/main.js:102 | Finds the first position where the term occurs ignoring case, and finds none iff there is no such position. |
| SearchHighlight.HighlightText | landrecords/records/static/records/js/main.js:98-108 | An empty term, or one that does not occur ignoring case, leaves the markup unchanged. On a match the output grows by exactly the length of the two tags. |
| SearchHighlight.HighlightShape | landrecords/records/static/records/js/main.js:102-106 | On a match, only the first case-insensitive occurrence is wrapped. The prefix and suffix are kept verbatim. The wrapped slice is the original text, of the term's length, and equal to the term ignoring case. Removing the two tags gives back the original markup. |
| SearchHighlight.HighlightCells | landrecords/records/static/records/js/main.js:96-117 | With an empty search value no cell changes. With a non-empty one every selected cell is passed through the highlighter, so cells without a match are unchanged and cells with one are highlighted. |
| SearchHighlight.HighlightCellsReversible | landrecords/records/static/records/js/main.js:96-110 | For a non-empty search value, every cell with a match is changed, and removing the two inserted tags from it gives back the original cell. |

## Left out

- Framework machinery is not modelled: the ORM, the generic views, `LoginRequiredMixin`/`login_required`, sessions, registration, the profile, the dashboard, messages, templates and `get_context_data`. The requester is always an authenticated user id. `preview_document` carries no login decorator, and anonymous requests to it are not modelled.
- The framework's own form-field checks are not modelled (length limits, required text fields, empty or nameless uploads). The one exception is the required document on create. In particular the category is a required form field that must name an existing category (the foreign key is nullable but not blank), while `Access.Create` and `Access.Update` accept any category, including none.
- Pagination is modelled only for integer page numbers. The paginator's `last` keyword and non-numeric page values are not modelled.
- File I/O is not modelled: opening and streaming the file, `FileResponse`, and blob storage. `record.document.path` is the parameter `pathOf` and `mimetypes.guess_type` is the parameter `guessType`. The storage's renaming of uploads and the `upload_to` prefix are not modelled; stored names are taken as given.
- Access.Update: with no new upload, the model re-checks the stored name as the user gave it. The real stored name carries the `land_records/` prefix and any storage renaming. So for a dotless upload such as `pdf`, the real update re-checks `land_records/pdf` and rejects it with the file-type message, while the model accepts it. This is a further effect of the dotless-name inconsistency above.
- Listing.CategoryFilter: every all-digit parameter is taken as a category id of unbounded size. The real conversion raises an error for a string of more than 4300 digits, and SQLite refuses ids above 2^63−1. The server error those parameters cause is not modelled; the model filters by the number instead.
- Listing.ListRecords: inherits that gap. For an over-long or out-of-range category parameter the real list view fails with a server error, while the model returns the list filtered by that number.
- Timestamps are not modelled beyond order. `date_added` is an opaque integer supplied as `now`. `date_updated` (`auto_now`) is not modelled.
- Records with equal `date_added` may come back from the database in any order. `Models.DefaultOrder` fixes one such order (stable insertion).
- The user profile's cascade on user deletion, and the category and profile admin configuration, are not modelled.
- Python's and JavaScript's Unicode case mapping and Unicode digits are not modelled. Only ASCII is handled.
- All DOM code in the page script is not modelled: tooltips, file-name labels, the delete confirmation, alert timers, the image preview, element lookups, and `highlightText`'s null-element guard. Cells are plain strings.
