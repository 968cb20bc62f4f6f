# Pagination and client-version helpers

A model of two helpers of a Go web-service support package:

- **Pagination** (`page.go`). A record holds four numbers: the current page, the page size, the page count and the record count.
  - The setters update the record in place and recount the pages.
  - The queries answer what a list view asks: the SQL limit and offset, the previous and next page, whether the page is the first or the last, and the page count.
  - `Pages` builds the strip of page entries a pager shows. Entries numbered -1 stand for pages that are left out.
- **Client version** (`app.go`). `AppVersion` is a value holding the device carrier, the version string and the network tag of a request. Its predicates are substring tests. `CompareVersion` packs three version fields into one number and compares the results.

Modules:

- `GoInt` (`go_int.dfy`) is Go's truncating integer division and remainder.
- `GoStrings` (`go_strings.dfy`) is the part of Go's `strings` package the version code uses: `Index`, `Contains`, `Split`, and `Join` as the inverse of `Split`.
- `Page` (`page.dfy`) models the pagination. `Pagination` is a class whose setters are methods with `modifies` frames and whose queries are functions that read the record. `Pages` fills a freshly allocated array slot by slot, as the source does. It is proved equal to the specification function `PageList`, and the properties of the strip are proved about `PageList` and `Window`.
- `App` (`app.dfy`) models the client version as a datatype. The integer parser the version fields go through is a function parameter, `parse`.

One behaviour of `Pages` is worth knowing: in every state the setters leave behind with positive sizes, `Pages` takes its listing branch and flags the entry numbered `TotalPages`, the last page, whatever the current page is (`RecountedPagesListEverything`); the windowed branch is reached only when `TotalPages` comes from the constructor or is assigned directly. The flag's name suggests the current page was meant; the model keeps the code's behaviour.

## Model

| member | source | states |
|---|---|---|
| GoInt.Quot | page.go:46 | Go's `/`: the remainder left over is smaller than the divisor in magnitude and has the dividend's sign; the quotient's sign follows the operands' signs |
| GoInt.Rem | page.go:47 | Go's `%`: `Quot(a, b) * b + Rem(a, b) == a`, smaller than the divisor in magnitude, zero or of the dividend's sign |
| GoStrings.Index | app.go:66 | the first position where the needle occurs, or -1 exactly when it occurs nowhere |
| GoStrings.Contains | app.go:66 | true exactly when the needle occurs somewhere in the string |
| GoStrings.Split | app.go:81-82 | at least one piece, and no piece holds the separator |
| GoStrings.JoinSplit | app.go:81-82 | joining the pieces of `Split` with the separator gives back the original string |
| GoStrings.SplitAtFirst | app.go:81-82 | a string `a + sep + rest`, where `a` cannot hold the separator, splits into `a` followed by the pieces of `rest` |
| App.NewAppVersion | app.go:20-22 | `Device`, `Version` and `Network` of the new value return exactly the three strings it was built from |
| App.AppVersion.Device | app.go:36-38 | the carrier returned, together with the version and network, rebuilds the value |
| App.AppVersion.Version | app.go:60-62 | the version string returned, together with the other two fields, rebuilds the value |
| App.AppVersion.Network | app.go:55-57 | the network tag returned, together with the other two fields, rebuilds the value |
| App.AppVersion.IsWifi | app.go:64-67 | true exactly when "wifi" occurs in the network tag |
| App.AppVersion.IsClient | app.go:69-72 | true exactly when "Native" occurs in the device (the code; the documentation counts packaged apps too, see Findings) |
| App.AppVersion.IsWeb | app.go:74-77 | true exactly when "Web" occurs in the device (the code; the documentation means the browser version only, see Findings) |
| App.AppVersion.IsClientAsDocumented | app.go:69 | the documented client test: a client exactly when the carrier is not the browser version, so exactly one of client and web holds |
| App.PackagedWebCarriersMisclassified | app.go:69-77 | every packaged carrier `<platform>-Web` of the documented platforms is, as written, web and not a client and classified "Web", while the documentation counts it as a client |
| App.DocumentedClassification | app.go:24-35 | under the documented tests both carriers of every documented platform are clients and not web, plain "Web" is web and not a client, and on the native carriers and plain "Web" the code agrees |
| App.AppVersion.SimpleDevice | app.go:40-45 | always "Native" or "Web"; "Native" exactly when "Native" occurs in the device |
| App.AppVersion.CompareVersion | app.go:80-94 | splits on backslash-dot and needs three fields on each side; the result is 0 or -1, and -1 exactly when this version packs to less than the other |
| App.PackedOrdersLexicographically | app.go:83-84 | while every field is in 0..999, the packing `a*1000000 + b*1000 + c` orders versions lexicographically by (major, minor, patch), and equal packed values mean equal fields |
| App.CompareVersionLexicographic | app.go:79-94 | with fields in range, `CompareVersion` is -1 exactly when this version is lexicographically older, and 0 exactly when it is not |
| App.CompareVersionNotAntisymmetric | app.go:85-93 | for two versions that pack differently, the comparisons taken both ways round sum to -1, never 0 |
| App.AppVersion.CompareVersionIntended | app.go:79 | the documented comparison (split on ".") is 1, 0 or -1 exactly when this version packs to more than, the same as, or less than the other |
| App.CompareVersionIntendedAntisymmetric | app.go:79 | the documented comparison is antisymmetric |
| App.PlainVersionIsOneField | app.go:81-82 | a version without a backslash, such as 2.3.1, splits on backslash-dot into one field, fewer than `CompareVersion` needs |
| App.DottedVersionSplits | app.go:59 | a version of three dot-free fields joined by "." splits on "." into exactly those fields |
| App.SuffixClassifiesDevice | app.go:69-77 | a device named `<platform>-Native` is a client classified "Native"; one named `<platform>-Web` is web |
| App.NoNativeMeansWeb | app.go:40-45 | a device without a capital N is not a client and is classified "Web" |
| App.PlatformWithoutNClassified | app.go:24-45 | for a platform name without a capital N, the -Native carrier is classified "Native" and the -Web carrier "Web" |
| App.DocumentedDevicesClassified | app.go:24-45 | every documented carrier (iOS, Android, Windows, Mac, Linux, each -Native and -Web, and Web) is classified by its suffix |
| Page.CeilQuot | page.go:46-49 | Go's quotient plus one for a nonzero remainder is the quotient rounded up when the operands share a sign, and at most 1 otherwise |
| Page.CeilQuotBounds | page.go:46-49 | the same bounds, proved from the quotient and remainder laws |
| Page.PageCount | page.go:45-53 | the recount is at least 1; it is the rounded-up quotient when records and size share a sign, and 1 otherwise |
| Page.MiddleIdx | page.go:136-141 | the middle slot of `n` slots is half of `n` rounded up |
| Page.ListedPages | page.go:152-158 | when all pages fit, the strip lists 1..`last` in order, only the entry numbered `n` (the slot count) can be flagged, and a flagged entry exists exactly when `last == n` |
| Page.WindowBounds | page.go:167-178 | the window starts at 1 or later, holds the current page and ends at `last` or earlier |
| Page.WindowLayout | page.go:190-211 | where the leading marker, the numbered slots and the trailing marker of the window sit |
| Page.WindowFromSlots | page.go:190-212 | a strip laid out slot by slot as the window prescribes is the window |
| Page.WindowShape | page.go:161-212 | length is the slot count plus the markers; a leading marker exactly when the first number is above 1, a trailing one exactly when the last is below `last`; no other marker; the numbers are consecutive and lie in 1..`last` |
| Page.WindowCurrent | page.go:201-211 | an entry is flagged exactly when its number is the current page, and exactly one entry is flagged |
| Page.WindowSlots | page.go:167-178 | the slots before and after the current page, cut down and shifted as the source does, are not negative, fill all the slots, and start the window at `WindowStart` |
| Page.Paginator.Num | page.go:128-130 | the number returned, together with the flag, rebuilds the entry |
| Page.Paginator.IsCurrent | page.go:132-134 | the flag returned, together with the number, rebuilds the entry |
| Page.Pagination.constructor | page.go:13-19 | the record holds the given page, page size and page count, and no records |
| Page.Pagination.SetPageNumber | page.go:21-27 | the page number becomes the argument unless the stored page number is not positive, in which case nothing changes; no other field changes |
| Page.Pagination.SetPageNumberChecked | page.go:21 | the setter as documented: a non-positive argument is ignored, so a positive page number stays positive |
| Page.Pagination.SetTotalRecord | page.go:29-33 | sets the record count and recounts the pages to `PageCount`; page number and page size are unchanged |
| Page.Pagination.SetPageSize | page.go:35-42 | a non-positive size changes nothing; otherwise the size is set and the pages recounted; page number and record count are unchanged |
| Page.Pagination.ComputeTotalPages | page.go:44-53 | the page count becomes `PageCount` of the records and the page size |
| Page.Pagination.Limit | page.go:55-62 | the limit is the page size; the offset is `(pageNo - 1) * PageSize` from page 1 on, and 0 for a page number of 1 or less |
| Page.Pagination.Previous | page.go:74-79 | one below the page number exactly when there is a previous page, else the page number; never below page 1 from a positive page |
| Page.Pagination.Next | page.go:86-91 | one above the page number exactly when records lie beyond the current page, else the page number |
| Page.Pagination.IsLast | page.go:93-99 | true when there are no records; when there are, being last implies no next page |
| Page.Pagination.TotalPage | page.go:106-115 | 1 for no records; otherwise the quotient rounded up when records and size share a sign |
| Page.Pagination.Pages | page.go:143-159 | empty when the page count is zero; otherwise `PageList` of the page count, `TotalPage()` and the current page |
| Page.Pagination.WindowedPages | page.go:161-212 | the array filled by the source's steps is exactly `Window` of the current page, the slot count and the last page |
| Page.DefaultPagination | page.go:10-12 | a new record on page 1 with 20 records a page, no pages and no records |
| Page.TotalPageMatchesRecount | page.go:106-115 | with a positive size and no negative records, `TotalPage` equals the page count the setters store |
| Page.RecordsBeyondPage | page.go:82-84 | records lie beyond page `c` exactly when `c` is below the rounded-up page count |
| Page.PageStartsInsideRecords | page.go:98 | page `c` starts inside the records exactly when `c` is at most the rounded-up page count |
| Page.HasNextBeforeLastPage | page.go:81-84 | characterises `HasNext`: from a positive page and with positive sizes, there is a next page exactly when the page is before `TotalPage()` |
| Page.PreviousExistsUnlessFirst | page.go:64-72 | characterises `IsFirst` and `HasPrevious`: from a positive page, there is a previous page exactly when the page is not the first, and the first page is its own previous page |
| Page.RecordsEndOnLastPage | page.go:101-115 | with a positive page size, the record count `Total` lies past all pages before `TotalPage()` and within that last page; no records make one page |
| Page.IsLastOnLastPage | page.go:93-99 | with records present, the page is last exactly when its number is `TotalPage()` |
| Page.LimitSelectsExistingPage | page.go:55-62 | the offset falls inside the records exactly when the page number is at most `TotalPage()` |
| Page.NeighboursWithinPages | page.go:74-91 | on a page in 1..`TotalPage()`, `Previous` and `Next` stay in that range, at most one step away |
| Page.RecountedPagesListEverything | page.go:152-159 | after a recount with positive sizes, the strip lists every page 1..`TotalPages` and flags the last one, whatever the current page |
| Page.LimitExamples | common_test.go:12-24 | the default record with 10 records gives (20, 0); after moving to page 2 it gives (20, 20) |
| Page.ZeroPageNumberSticks | page.go:21-27 | once a zero page number is stored, later calls to the setter leave it at zero |

## Left out

- The signed-token helpers (`jwt/jwt.go`) are not part of this model. They delegate HMAC signing, serialisation and claim checks to an external library and read the wall clock.
- `dto.go` and the `List` payload of `PaginationList` are not part of this model. They are data envelopes and a JSON wrapper with no logic to verify.
- The `Query`/`MarkPage` scenario of `common_test.go` is not modelled, because that code is not part of this model.
- The integer parser `utils.StrTo(...).MustInt64()` is the parameter `parse`. Its behaviour on malformed input is not modelled.
- Go's 64-bit integer overflow is not modelled: integers are unbounded. Truncating division and remainder on negative operands are modelled.
- Page.Pagination.Pages: the inputs on which the Go code faults are excluded by `PagesDefined` rather than modelled as a failure. Those inputs are a negative page count (the allocation or an index faults), a zero page size with records present, in the listing branch a negative `TotalPage()` (the allocation faults; for example a page size of -20 with 20 records), and, in the windowed branch, a current page outside 1..`TotalPage()` (an index out of range).
- Page.Pagination.SetTotalRecord: a page size of zero is excluded by a precondition, as it is for `Page.Pagination.ComputeTotalPages`; the Go code divides by it and faults, even with no records (for example `NewPagination(1, 0, 0)` followed by `SetTotalRecord(5)`).
- App.AppVersion.CompareVersion: a version that splits into fewer than three fields is excluded by a precondition; the Go code faults reading a missing field. A plain dotted version is such an input (see Findings).
- Page.Pagination.Pages: the Go code returns a slice of pointers to fresh entries; the model returns a sequence of values, since the entries are never shared.
- Page.Pagination.WindowedPages: the source's `maxIdx` local is updated but never read, so it is not modelled.
- GoStrings.Split: only non-empty separators are modelled (Go splits into single characters on an empty separator, which this code never uses). Strings are sequences of characters where Go uses bytes; all needles and separators here are ASCII.
- Page.Pagination.IsLast: the contract states the zero-records case and that a last page has no next page. Its characterisation as "the page number is the page count" holds only for positive sizes and is the lemma `IsLastOnLastPage`.

## Findings

| source | as written | input that shows it | evidently intended | confidence | as-written member | corrected member |
|---|---|---|---|---|---|---|
| page.go:21-27 | the guard tests the stored page number, not the argument, so a non-positive argument is stored and every later call is then ignored | on the default record, `SetPageNumber(0)` then `SetPageNumber(3)` leaves page 0 | ignore a non-positive argument, as the setter's comment says | not executed | Page.ZeroPageNumberSticks | Page.Pagination.SetPageNumberChecked |
| app.go:85-93 | a newer version compares as 0, like an equal one, so the result is never 1 | versions whose fields are 2, 3, 1 and 2, 3, 0: comparing the first with the second gives 0 | 1 when this version is newer, as the doc comment says | not executed | App.CompareVersionNotAntisymmetric | App.AppVersion.CompareVersionIntended |
| app.go:81-82 | versions are split on the two characters backslash-dot, which a version such as 2.3.1 does not hold | "2.3.1" splits into one field, and reading the second field is out of range | split on ".", the separator the documented version format uses | not executed | App.PlainVersionIsOneField | App.DottedVersionSplits |
| app.go:69-77 | the client test looks only for "Native" and the web test for "Web" anywhere, so a packaged app such as iOS-Web is not a client but is web | the device iOS-Web: `IsClient` is false, `IsWeb` is true and `SimpleDevice` is "Web" | every carrier but the browser version "Web" is a client, and only "Web" is web, as the comments on both tests and the carrier list say | not executed | App.PackagedWebCarriersMisclassified | App.AppVersion.IsClientAsDocumented |
