# Writeup editor backend: decision logic of TestController

This project models, in Dafny, the decisions the writeup editor backend takes in
`TestController` before and after it touches the disk, with the HTTP, JSON and
file-system layers replaced by plain inputs and "would write" results:

- **saveToJson** (`Articles.SaveToJson`): a null or empty batch is refused; otherwise
  the articles are scanned in order and the first one lacking `title`, `folder` or
  `date` is reported by its 1-based position; only a batch that passes entirely is
  handed, unchanged, to the writer.
- **readJsonFile** (`Articles.ReadStore`): a missing store file reads as no articles;
  an unreadable or unparsable one is an error.
- **detectNewFolders** (`Reconciler.DetectNewFolders`, `Reconciler.Reconcile`): the
  distinct `folder` values of the stored articles against the subdirectory names of
  the writeups root. `newFolders` (on disk, not stored) and `missingFolders` (stored,
  not on disk) are each sorted ascending in Java's natural string order
  (`Ordering.Less`, `Ordering.SortAscending`).
- **buildDetectionMessage** (`Reconciler.BuildDetectionMessage`, an imperative
  builder, proved equal to `Reconciler.DetectionMessage`): "發現 N 個新資料夾" and
  "發現 M 個遺失資料夾", those with a non-zero count, in that order, joined by the
  full-width semicolon `；`; "沒有發現新增或遺失的資料夾" when both counts are zero.
  Counts are rendered in decimal (`Decimal.NatToString`) and can be read back
  (`Decimal.ParseDecimal`, `Reconciler.ClauseCount`).
- **createFolder** (`FolderCreation.CreateFolder`): a missing or blank-after-trim name
  is refused; the name is trimmed (`Trim`, Java's `String.trim`) and the characters
  `\ / : * ? " < > |` are removed (`StripForbidden`); a name whose path already exists
  is refused; otherwise the folder and its README (`Readme`) are requested from the
  file system and the sanitised name is returned. Because the blank check runs
  before the stripping, a name such as `///` passes it and is sanitised to the empty
  name (`FolderCreationExamples.StrippedNameMayBeEmpty`).

Inputs that stand for the outside world:

- the store file is a `StoreFile`: `Absent`, `Unreadable(message)` (an I/O or Jackson
  parse error) or `Present(articles)`, the articles already parsed;
- the writeups root is a `Listing`: `NoDirectory` (missing, or not a directory) or
  `Directories(names)`, the names of its immediate subdirectories (a `null` listing
  is the empty set);
- for `createFolder`, `existing` is the set of names whose path under the writeups
  root already exists (`Files.exists`), and `ioError` is the failure, if any, of
  creating the folder or writing its README;
- the request's `folderName` is an `Option` (`None` for absent or null).

The response envelope `ApiResponse` is the datatype `Responses.ApiResponse`
(`Success(message, data)` or `Error(message)`).

## Model

| member | source | states |
|---|---|---|
| `Articles.SaveToJson` | src/main/java/com/numb2/writeup_editor_backend/controller/TestController.java:51-77 | A null or empty batch is refused as empty; otherwise the batch is written, unchanged, exactly when every article has title, folder and date; a refusal for a missing field names the 1-based position of the first article that lacks one, every earlier article being complete |
| `Articles.ReadStore` | src/main/java/com/numb2/writeup_editor_backend/controller/TestController.java:263-271 | A missing store file reads as the empty article list, a present one as its parsed articles; the read fails exactly when the file is unreadable |
| `Articles.SaveErrorMessagesDistinct` | src/main/java/com/numb2/writeup_editor_backend/controller/TestController.java:51-66 | Two refusal texts of saveToJson are equal only for the same refusal: the empty-batch text differs from every missing-field text, and the missing-field text determines the 1-based position it reports |
| `Articles.FolderNames` | src/main/java/com/numb2/writeup_editor_backend/controller/TestController.java:189-191 | The existing folders are exactly the folder strings some stored article carries |
| `Ordering.SortAscending` | src/main/java/com/numb2/writeup_editor_backend/controller/TestController.java:209-212 | Sorting a set yields each of its elements once and nothing else, in strictly ascending natural string order |
| `Ordering.SortAscendingUnique` | src/main/java/com/numb2/writeup_editor_backend/controller/TestController.java:215-218 | Any strictly ascending list of exactly the set's elements is the sorted set, so the sorted result depends on the set alone and not on hash iteration order |
| `Ordering.LessTransitive` | src/main/java/com/numb2/writeup_editor_backend/controller/TestController.java:211 | The natural string order used by sorted() is transitive |
| `Ordering.LessTotal` | src/main/java/com/numb2/writeup_editor_backend/controller/TestController.java:217 | Any two different strings are ordered one way or the other |
| `Ordering.AscendingHasNoDuplicates` | src/main/java/com/numb2/writeup_editor_backend/controller/TestController.java:209-218 | A strictly ascending folder list holds no name twice |
| `Reconciler.Reconcile` | src/main/java/com/numb2/writeup_editor_backend/controller/TestController.java:209-218 | newFolders holds exactly the actual folders that are not stored, missingFolders exactly the stored folders that are not on disk; both strictly ascending, with the sizes of the two set differences |
| `Reconciler.ReconcilePartitions` | src/main/java/com/numb2/writeup_editor_backend/controller/TestController.java:189-218 | The two lists have no duplicates, share no name, together hold exactly the symmetric difference of the stored and actual sets, and a name in both sets is in neither list |
| `Reconciler.ReconcileUnique` | src/main/java/com/numb2/writeup_editor_backend/controller/TestController.java:209-218 | The reconciliation is the only pair of strictly ascending lists with those memberships |
| `ReconcilerExamples.ExactMatchAndOrder` | src/main/java/com/numb2/writeup_editor_backend/controller/TestController.java:209-218 | Stored Alpha, Beta against directories alpha, Gamma gives new [Gamma, alpha] and missing [Alpha, Beta]: matching is case-sensitive and upper case sorts first |
| `Reconciler.BuildDetectionMessage` | src/main/java/com/numb2/writeup_editor_backend/controller/TestController.java:238-257 | The step-by-step builder produces exactly the summary of the two list sizes |
| `Reconciler.NothingFoundExactlyWhenEmpty` | src/main/java/com/numb2/writeup_editor_backend/controller/TestController.java:252-254 | The message is the fixed "nothing found" text exactly when both lists are empty |
| `Reconciler.SeparatorExactlyWhenBoth` | src/main/java/com/numb2/writeup_editor_backend/controller/TestController.java:245-248 | The full-width semicolon appears in the message exactly when both lists are non-empty |
| `Reconciler.DetectionMessageClauses` | src/main/java/com/numb2/writeup_editor_backend/controller/TestController.java:241-250 | The new-folder clause opens the message when present, the missing-folder clause closes it, the separator sits between them, and the counts read back from the clauses are the list sizes |
| `Reconciler.ClauseCountOf` | src/main/java/com/numb2/writeup_editor_backend/controller/TestController.java:242 | The count read back from a clause is the count that was appended |
| `Decimal.ParseNatToString` | src/main/java/com/numb2/writeup_editor_backend/controller/TestController.java:249 | Reading the decimal text of a count gives the count back |
| `Decimal.NatToStringInjective` | src/main/java/com/numb2/writeup_editor_backend/controller/TestController.java:242 | Different counts render as different decimal texts |
| `Reconciler.DetectNewFolders` | src/main/java/com/numb2/writeup_editor_backend/controller/TestController.java:185-233 | An unreadable store gives the detection-failed error; otherwise a missing root gives the directory error; it succeeds exactly when neither happens, with newFolders and missingFolders being the exact, sorted differences of the stored and actual folder sets and the message summarising their sizes |
| `Reconciler.MissingStoreFile` | src/main/java/com/numb2/writeup_editor_backend/controller/TestController.java:263-267 | With no store file every actual folder is new, in ascending order, nothing is missing, and the message reports only the new count |
| `FolderCreation.Trim` | src/main/java/com/numb2/writeup_editor_backend/controller/TestController.java:280-285 | The trimmed name is a contiguous part of the input with only characters up to U+0020 around it, starts and ends with a character above U+0020, and is empty exactly when the whole input is such characters |
| `FolderCreation.StripForbidden` | src/main/java/com/numb2/writeup_editor_backend/controller/TestController.java:285 | The stripped name contains none of the nine forbidden characters and is no longer than the input |
| `FolderCreation.StripIsSubsequence` | src/main/java/com/numb2/writeup_editor_backend/controller/TestController.java:285 | Stripping keeps the order of the characters it keeps |
| `FolderCreation.StripKeepsOthers` | src/main/java/com/numb2/writeup_editor_backend/controller/TestController.java:285 | Stripping keeps every occurrence of every character that is not forbidden |
| `FolderCreation.StripIdentity` | src/main/java/com/numb2/writeup_editor_backend/controller/TestController.java:285 | A name is left unchanged by stripping exactly when it holds no forbidden character |
| `FolderCreation.StripIdempotent` | src/main/java/com/numb2/writeup_editor_backend/controller/TestController.java:285 | Stripping an already stripped name changes nothing |
| `FolderCreation.StripAppend` | src/main/java/com/numb2/writeup_editor_backend/controller/TestController.java:285 | Stripping a concatenation strips each part separately |
| `FolderCreation.SanitizeFolderName` | src/main/java/com/numb2/writeup_editor_backend/controller/TestController.java:285 | The sanitised name has no forbidden character and is the trimmed name with exactly its forbidden characters removed, order kept |
| `FolderCreation.Readme` | src/main/java/com/numb2/writeup_editor_backend/controller/TestController.java:301-305 | The README opens with "# name" and a blank line, and contains the introduction header, the intro line naming the folder again, and the content header with its placeholder |
| `FolderCreation.CreateFolder` | src/main/java/com/numb2/writeup_editor_backend/controller/TestController.java:277-315 | A missing or blank name is refused before anything else; the folder and README are requested exactly when the name is not blank and its sanitised form does not exist yet, an existing one being refused with its name; a requested folder carries the sanitised name, has no forbidden character, and its README is exactly the template for that name (heading, intro naming it again, both section headers, placeholder); success exactly when requested and no I/O error, with the created-folder message naming the folder and the folder name as data; an I/O error gives the creation-failed error |
| `FolderCreationExamples.SlashIsStripped` | src/main/java/com/numb2/writeup_editor_backend/controller/TestController.java:285-309 | "Test/Name" creates the folder "TestName" whose README opens with "# TestName" and returns it |
| `FolderCreationExamples.StrippedNameMayBeEmpty` | src/main/java/com/numb2/writeup_editor_backend/controller/TestController.java:280-294 | "///" passes the blank check and is sanitised to the empty name, which is then only checked for collision |
| `FolderCreationExamples.SecondCreateRefused` | src/main/java/com/numb2/writeup_editor_backend/controller/TestController.java:292-294 | Once a name has been created, asking for it again is refused and requests nothing from the file system |

## Left out

- HTTP plumbing: request mappings, `ResponseEntity`, status codes (400/404/500) and CORS; the model returns outcomes and messages only.
- Jackson: parsing the store file and serialising a batch (pretty-printed, two-space indent). A parsed store is an input; a store that does not parse is `Unreadable` with its message; a file whose content is JSON `null` (which would make the stream step fail) is not modelled.
- File-system effects: creating the store's parent directory, writing the JSON file, listing the root, `Files.exists`, `createDirectories`, `writeString`. Listings and existence are inputs; writes are returned as values (`SaveOutcome.Write`, `FolderWrite`). How a name such as `.`, `..` or the empty name resolves to a path is folded into the `existing` input.
- Articles.SaveToJson: the success response (message, count, timestamp) and the 500 response for a failing write are not modelled; an article that is JSON `null` inside the batch (a null-pointer failure in Java) is not modelled.
- Timestamps and console logging of saveToJson: clock and side effects.
- `getWriteup` and `scanFolders`: pass-throughs of the file and of a directory listing with only an existence check.
- Reconciler.DetectNewFolders: requires every stored article to carry a string `folder`; in Java a missing, null or non-string folder value fails with a null-pointer or class-cast error, or passes a null into the sets, which the model does not represent.
- Ordering.Less: compares Unicode code points, while Java's `String.compareTo` compares UTF-16 code units; the two orders differ only for characters outside the Basic Multilingual Plane against characters from U+E000 to U+FFFF.
- Articles.Value: JSON numbers are integers; floating-point values are not modelled (no operation here inspects them).
- Duplicate-folder counting, case-mismatch detection and folder-case repair: TestController has none of them; the summary has only the new-folder and missing-folder clauses, and folder names are compared exactly.
- FolderCreation.CreateFolder: which of the two file-system steps failed on an I/O error, and what was left on disk, is not modelled; `Paths.get` rejecting a name with a character the platform forbids is not modelled.
