# SmartKitBud core, modelled in Dafny

SmartKitBud is a grocery-receipt app. A user photographs a receipt and the
upload route has a hosted model turn it into JSON items. The user reviews
the items, edits or removes them, and commits them to a PocketBase
collection. The dashboard lists the inventory by category, lets the user
select ingredients, and asks Spoonacular for recipes that use them.

This project models the app's decision logic as pure Dafny functions and
proves properties about each one. It covers:

- the dashboard's grouping, search, selection and category toggling;
- the inventory panel's header checkboxes, sorted categories and empty state;
- the upload page's category whitelist, editing, removal and button guards;
- the three API routes (upload, commit, recipes) as pure functions from
  request, session and store to reply and store;
- the page middleware and its path matcher;
- the recipe card links;
- the two login forms;
- the Python helpers for OCR.space, Spoonacular and image preprocessing.

Modules follow the source files:

| module | models |
|---|---|
| `Dashboard` | `frontend/app/dashboard/page.tsx` |
| `Inventory` | `frontend/app/dashboard/components/Inventory.tsx` |
| `RecipeSuggestions` | `frontend/app/dashboard/components/RecipeSuggestions.tsx` |
| `UploadPage` | `frontend/app/upload/page.tsx` |
| `UploadRoute` | `frontend/app/api/upload/route.ts` |
| `CommitRoute` | `frontend/app/api/commit/route.ts` |
| `RecipesRoute` | `frontend/app/api/recipes/route.ts` |
| `Middleware` | `frontend/middleware.ts` |
| `AuthPage` | `frontend/app/dashboard/login/page.tsx` |
| `LoginPage` | `frontend/app/login/page.tsx` |
| `OcrSpace` | `old_c_code/ocrspace.py` |
| `Spoontac` | `backend/spoontac.py` |
| `ImgToGray` | `backend/img_to_gray.py` |

Shared helper modules:

- `Wrappers` holds `Option`.
- `Seqs` holds `filter`, `Set`-style dedupe, and subsequences.
- `Text` holds `trim`/`strip`, `toLowerCase`, `includes`, `join`, splitting and `replace(/lit/g, '')`.
- `Decimal` renders numbers in templates.
- `Json` covers parsed values, JavaScript truthiness, member access and optional chaining.
- `Uri` is `encodeURIComponent`.
- `Sorting` is `Array.prototype.sort` on strings.
- `PyPath` holds `os.path.basename`, `splitext` and `join`.

Everything the code gets from outside is a parameter:

- session decryption (`decrypt`) and `JSON.parse`;
- the AI model's answer;
- PocketBase's `create`;
- `fetch` answers and the outcome of HTTP requests;
- `parseFloat`;
- JavaScript's `String()` of a non-string;
- file existence and readability, and image sizes.

## Model

| member | source | states |
|---|---|---|
| Dashboard.CategoryKey | frontend/app/dashboard/page.tsx:39 | An item's group key is never empty: it is the item's category when that is non-empty, and "Other" otherwise. |
| Dashboard.AddToGroups | frontend/app/dashboard/page.tsx:38-45 | One reduce step on a key the object holds as its own. It appends the item to its category's group, or opens a new group at the end. Other groups are unchanged. |
| Dashboard.GroupItemsByCategory | frontend/app/dashboard/page.tsx:35-46 | The result of the reduce when it does not throw. The group keys are distinct. Each group holds exactly the items with its key, in input order. Every item's key is a group, and no group is empty. |
| Dashboard.GroupOrThrow | frontend/app/dashboard/page.tsx:35-46 | The reduce on a plain object throws iff some item is filed under a name every object inherits, such as "constructor" or "toString": `acc[category]` is then truthy and has no `push`. |
| Dashboard.GroupOrThrowGroups | frontend/app/dashboard/page.tsx:35-46 | When the reduce does not throw, its result is the grouping above, and it partitions the items. |
| Dashboard.GroupStep | frontend/app/dashboard/page.tsx:38-45 | Adding one item to a grouping of a prefix gives the grouping of the extended prefix. |
| Dashboard.GroupingPreservesCount | frontend/app/dashboard/page.tsx:35-46 | The group sizes add up to the number of items. |
| Dashboard.ItemInExactlyOneGroup | frontend/app/dashboard/page.tsx:35-46 | Every item's key is a group. The item appears in a group exactly when that group is keyed by its category. |
| Dashboard.SearchKeepsExactlyMatches | frontend/app/dashboard/page.tsx:92-95 | An item survives the search iff its lower-cased name contains the lower-cased term somewhere. |
| Dashboard.SearchEmptyKeepsAll | frontend/app/dashboard/page.tsx:92-95 | An empty search term keeps every item, in order. |
| Dashboard.FilterBySearch | frontend/app/dashboard/page.tsx:92-95 | The search result is a subsequence of the items. Each item occurs in it as often as in the input when its name matches, and not at all otherwise. |
| Dashboard.RenderThrowsIffInheritedKey | frontend/app/dashboard/page.tsx:92-97 | The grouped view throws iff a matching item is filed under an inherited name. Otherwise it is the grouping of the matching items. |
| Dashboard.SelectItem | frontend/app/dashboard/page.tsx:135-143 | Selecting appends the item and keeps the earlier entries. Deselecting keeps, in order and with their multiplicity, exactly the entries with another id, so the list shrinks by the number of entries with that id. |
| Dashboard.SelectDoesNotDeduplicate | frontend/app/dashboard/page.tsx:136-137 | Selecting an item already selected adds one more entry with its id. |
| Dashboard.DeselectAfterSelect | frontend/app/dashboard/page.tsx:135-143 | Deselecting after selecting is the same as deselecting alone. Deselecting an id that is not selected changes nothing. |
| Dashboard.SelectAllInCategory | frontend/app/dashboard/page.tsx:145-160 | When all are selected, it keeps, in order and with their multiplicity, exactly the entries whose id is not in the category. Otherwise it keeps the selection as a prefix and appends, in category order, exactly the category items whose id is not yet selected; afterwards every category id is selected. |
| Dashboard.CategoryIds | frontend/app/dashboard/page.tsx:150 | An id is in the set iff some category item has it. |
| Dashboard.IngredientQuery | frontend/app/dashboard/page.tsx:100-106 | There is a query iff something is selected. |
| Dashboard.IngredientQueryRoundTrip | frontend/app/dashboard/page.tsx:100-106 | With comma-free names, the query splits back into the distinct selected names. Each occurs once, in the order of its first selection, and every selected name occurs. |
| Dashboard.ToggleCategory | frontend/app/dashboard/page.tsx:131-133 | The named category's flag becomes the negation of its old value, where a missing flag counts as false. No other flag changes. |
| Dashboard.ToggleTwice | frontend/app/dashboard/page.tsx:131-133 | Toggling a category twice restores whether every category is open. |
| Dashboard.InitialOpen | frontend/app/dashboard/page.tsx:77-80 | After loading, only the first item's category is open. With no items, no category is open. |
| Dashboard.InitialOpenIsAGroup | frontend/app/dashboard/page.tsx:77-80 | The category opened at load is one of the displayed groups. |
| Dashboard.FindRecipes | frontend/app/dashboard/page.tsx:99-129 | An empty selection sends nothing. Otherwise the request carries the ingredient query and loading ends. Found recipes replace the list. A refusal leaves an empty list and shows the API's error, or "Failed to fetch recipes." when that is empty. A thrown error shows its message. |
| Inventory.EmptyStateIffNoMatches | frontend/app/dashboard/components/Inventory.tsx:80 | The empty-state panel shows exactly when no item matches the search. |
| Inventory.SortedCategories | frontend/app/dashboard/components/Inventory.tsx:104-105 | The categories are sorted and are a permutation of the group keys. |
| Inventory.CategoryOrderIsCanonical | frontend/app/dashboard/components/Inventory.tsx:104-105 | Any sorted permutation of the keys is the rendered order: the order is unique. |
| Inventory.ItemsOf | frontend/app/dashboard/components/Inventory.tsx:107 | A category that is not a key has no items. |
| Inventory.ItemsOfGroup | frontend/app/dashboard/components/Inventory.tsx:107 | With distinct keys, looking up a group's category gives that group's items. |
| Inventory.SelectedInCategory | frontend/app/dashboard/components/Inventory.tsx:108-110 | Gives, in category order and with their multiplicity, exactly the category items whose id is in the selection. |
| Inventory.AreAllSelectedIff | frontend/app/dashboard/components/Inventory.tsx:111-113 | `areAllSelected` holds iff the category is non-empty and every item's id is selected. |
| Inventory.SomeSelectedIff | frontend/app/dashboard/components/Inventory.tsx:108-110 | `selectedInCategory` is non-empty iff some category item is selected. |
| Inventory.Header | frontend/app/dashboard/components/Inventory.tsx:150-153 | The header is checked iff the category is non-empty and fully selected. It is indeterminate iff some but not all items are selected. Never both. |
| Inventory.HeaderClick | frontend/app/dashboard/components/Inventory.tsx:154-158 | Clicking a fully selected header leaves no category item selected. Clicking any other non-empty header selects all of it. An empty category's click changes nothing. |
| Inventory.RowClick | frontend/app/dashboard/components/Inventory.tsx:169-186 | A row click flips that row's selected mark and no other row's mark. |
| Inventory.Render | frontend/app/dashboard/components/Inventory.tsx:80-186 | Shows the empty state iff there are no groups. Otherwise there is one panel per group, in sorted order, with its open flag. A panel's table, with the header state and one row per item with its selected mark, is mounted iff the panel is open. |
| RecipeSuggestions.CollapseSpaces | frontend/app/dashboard/components/RecipeSuggestions.tsx:71-73 | The slug contains no whitespace character. |
| RecipeSuggestions.CollapseSpacesNoSpace | frontend/app/dashboard/components/RecipeSuggestions.tsx:71-73 | A title without whitespace is its own slug. |
| RecipeSuggestions.CollapseSpacesRun | frontend/app/dashboard/components/RecipeSuggestions.tsx:71-73 | A maximal whitespace run between two parts becomes one "-". |
| RecipeSuggestions.RecipeLink | frontend/app/dashboard/components/RecipeSuggestions.tsx:71-74 | The link starts with the recipe page base and holds no whitespace. A title without whitespace appears unchanged, followed by "-" and the id. |
| RecipeSuggestions.RecipeLinkOfRun | frontend/app/dashboard/components/RecipeSuggestions.tsx:71-74 | A whitespace run inside the title becomes exactly one "-" of the link, between the slugs of the text around it. |
| RecipeSuggestions.Render | frontend/app/dashboard/components/RecipeSuggestions.tsx:41-95 | Six skeletons show while loading. The error alert shows iff the error is non-empty. The hint shows iff not loading, with no recipes and no error. There is one card per recipe, in order, with its link and counts. |
| UploadPage.NormaliseCategory | frontend/app/upload/page.tsx:120-123 | The category is kept iff it is a whitelisted string. Otherwise it becomes "Other". The result is always whitelisted. |
| UploadPage.NormaliseAll | frontend/app/upload/page.tsx:117-125 | Keeps count, order and every field other than the category. Each category is whitelisted, and is either "Other" or the original. |
| UploadPage.NormaliseIdempotent | frontend/app/upload/page.tsx:117-125 | Normalising reviewed items again changes nothing. |
| UploadPage.NumberOr0 | frontend/app/upload/page.tsx:160 | A failed parse stores 0. Otherwise the parsed number is stored. |
| UploadPage.ItemChange | frontend/app/upload/page.tsx:151-167 | Only the named field of the item at `index` changes. Price and quantity store the parsed number or 0; the other fields store the text. The length and all other items are unchanged. |
| UploadPage.ItemChangeSameText | frontend/app/upload/page.tsx:151-167 | Writing a text field's current value back leaves the list unchanged. |
| UploadPage.ItemChangeKeepsWhitelist | frontend/app/upload/page.tsx:151-167 | Edits keep every category whitelisted, as long as a category edit picks a whitelisted name. |
| UploadPage.RemoveItem | frontend/app/upload/page.tsx:169-173 | Removes exactly the element at the index and keeps the rest in order. An out-of-range index changes nothing. |
| UploadPage.RemoveItemKeepsWhitelist | frontend/app/upload/page.tsx:169-173 | Removal keeps every category whitelisted. |
| UploadPage.FileChange | frontend/app/upload/page.tsx:78-85 | Choosing a file selects it and clears the items and both messages. An empty choice changes nothing. |
| UploadPage.ProcessEnabledAfterFileChange | frontend/app/upload/page.tsx:78-85 | After a file is chosen while idle, "Process Receipt" (its `disabled` condition is at line 255) is enabled. |
| UploadPage.OneActionAtATime | frontend/app/upload/page.tsx:253-263 | "Process Receipt" and an enabled "Save All Items" are never offered together. While loading, both are disabled. Once items await review and nothing loads, only saving is possible. |
| UploadPage.FileUpload | frontend/app/upload/page.tsx:87-149 | With no file, only the error is set. Otherwise loading ends. A non-empty result sets the normalised items and the count message. An empty result sets the "no items" message and an empty list. A failure keeps the items. A refusal shows the API's `error` or "An unknown error occurred during processing.". A thrown request shows its message, and a non-array `text` shows the `TypeError` of `.map`. |
| UploadPage.ExtractedMessageCount | frontend/app/upload/page.tsx:128-132 | The success message counts the items shown. The items are whitelisted, and "Process Receipt" is then disabled. |
| UploadPage.DataSubmit | frontend/app/upload/page.tsx:175-207 | An empty list sends nothing. Otherwise the items are sent. Success clears the items and the file and sets the saved message. Failure keeps them. A refusal shows the API's `error`, or "Unknown error while saving" when that is missing or falsy. A thrown error shows its message. |
| UploadPage.SaveClearsPage | frontend/app/upload/page.tsx:191-194 | After a save there is nothing to submit, and processing waits for a new file. |
| UploadRoute.Cleanup | frontend/app/api/upload/route.ts:40 | Cleanup never lengthens the text, and its result neither starts nor ends with whitespace. |
| UploadRoute.CleanupIsSubsequence | frontend/app/api/upload/route.ts:40 | The cleaned text is a subsequence of the raw answer: nothing is added or reordered. |
| Text.TrimIsMiddle | frontend/app/api/upload/route.ts:40 | `trim` removes whitespace from the two ends only: the result is a contiguous slice of the text with nothing but whitespace before and after it. |
| Text.RemoveAllFirstMatch | frontend/app/api/upload/route.ts:40 | The replace keeps everything before the first occurrence of the pattern and continues right after it. |
| UploadRoute.CleanupUnfenced | frontend/app/api/upload/route.ts:40 | Text with no fence is only trimmed. |
| UploadRoute.RemoveOpeningFence | frontend/app/api/upload/route.ts:40 | Removing "```json" from a fenced answer leaves the body and the closing fence. |
| UploadRoute.RemoveClosingFence | frontend/app/api/upload/route.ts:40 | Removing "```" after a fence-free body leaves the body. |
| UploadRoute.CleanupFenced | frontend/app/api/upload/route.ts:40 | "```json" + ws + s + ws + "```" cleans to trim(s) when s holds no fence. |
| UploadRoute.Handle | frontend/app/api/upload/route.ts:13-54 | 401 iff there is no session user. 400 iff there is a user and no `image` field. 200 iff a file's AI text parses after cleanup, with body {text: parsed}. Every other case is 500 "Failed to process receipt.", with the not-valid-JSON details when parsing fails. |
| UploadRoute.FencedAnswerAccepted | frontend/app/api/upload/route.ts:36-47 | A fenced AI answer whose trimmed body parses gives 200 with that value. |
| CommitRoute.RecordOf | frontend/app/api/commit/route.ts:31-38 | A record copies name, price, quantity, unit and category from the item. Its owner is the session user. Reading a `null` item throws. |
| CommitRoute.CreateAll | frontend/app/api/commit/route.ts:30-41 | Creates only: the store keeps its prefix and gains one record per processed item, in order. It stops at the first failure, keeping what was created. |
| CommitRoute.CreateAllAppend | frontend/app/api/commit/route.ts:30-41 | Committing a + b is committing a, then b onto the result. |
| CommitRoute.RepeatedItemsRepeatRecords | frontend/app/api/commit/route.ts:30-41 | The same item twice creates two equal records: there is no merge. |
| CommitRoute.CreateErrorReply | frontend/app/api/commit/route.ts:45-56 | A create error with status 401 gives 401 "Session expired". Any other error gives 500. |
| CommitRoute.Handle | frontend/app/api/commit/route.ts:6-58 | No cookie gives 401 with the store unchanged. A session without user id or token gives 401, unchanged. A body that is not JSON gives 500, unchanged. A non-array body gives 400, unchanged. 200 iff every item was created, with the count message and owners stamped. Failures keep the records created before them. |
| CommitRoute.CommitRecordsEachItem | frontend/app/api/commit/route.ts:28-43 | Against an accepting store, the reply is 200 and the store only grows. The i-th new record belongs to the session user and copies the i-th item's name and category. |
| CommitRoute.AllObjectsCreated | frontend/app/api/commit/route.ts:30-41 | With no `null` items, an accepting store creates every record. |
| CommitRoute.SavedMessageCount | frontend/app/api/commit/route.ts:43 | The success message begins with the decimal count of items. |
| RecipesRoute.SearchUrl | frontend/app/api/recipes/route.ts:35-37 | The URL is the findByIngredients endpoint and "?". When the key holds no "&", the query splits at "&" into exactly five parameters. The first is "ingredients=" with a value that decodes to the UTF-8 bytes of the ingredient string; the others are "number=9", "ranking=2", "ignorePantry=true" and "apiKey=" with the key. |
| RecipesRoute.UpstreamError | frontend/app/api/recipes/route.ts:44-47 | The error is the upstream `message` when truthy, and "Failed to fetch recipes." otherwise. |
| RecipesRoute.Handle | frontend/app/api/recipes/route.ts:7-59 | No session user gives 401. A missing key gives 500. A bad body gives 500. A missing, empty or non-string `ingredients` gives 400. An OK upstream answer passes through with 200. A non-OK answer passes its status through. Anything thrown gives 500. |
| RecipesRoute.SessionCheckedFirst | frontend/app/api/recipes/route.ts:8-16 | Without a session user, nothing else affects the reply. |
| RecipesRoute.KeyCheckedBeforeBody | frontend/app/api/recipes/route.ts:18-26 | A missing key is reported whatever the body is. |
| Middleware.Decide | frontend/middleware.ts:5-29 | An exact public path passes. Otherwise a missing or empty `pb_auth` redirects to "/login", and any other value passes. |
| Middleware.RedirectTargetPasses | frontend/middleware.ts:5-23 | The redirect target always passes, so there is no redirect loop. |
| Middleware.PublicIsExact | frontend/middleware.ts:5-11 | Without a token, a path under a public path ("/login/settings") or with a trailing slash ("/about/") is redirected: public paths match exactly. |
| Middleware.TokenNotValidated | frontend/middleware.ts:26-28 | Any two non-empty tokens decide alike: both pass. |
| Middleware.MatcherApplies | frontend/middleware.ts:40 | A path the middleware runs on starts with "/" and starts with none of "/api", "/_next/static", "/_next/image" and "/favicon.ico". |
| Middleware.ApiPathsSkipped | frontend/middleware.ts:40 | No path starting "/api" reaches the middleware. |
| Middleware.FaviconDotIsWildcard | frontend/middleware.ts:40 | The unescaped "." in the pattern also skips "/faviconXico". |
| Middleware.PagesMatched | frontend/middleware.ts:40 | "/dashboard" and "/login" do reach the middleware. |
| AuthPage.IsButtonDisabled | frontend/app/dashboard/login/page.tsx:97 | Submit is disabled iff the email, the password or (in sign-up mode) the confirmation is all whitespace. |
| AuthPage.Login | frontend/app/dashboard/login/page.tsx:24-48 | Success navigates to /dashboard. A refusal sets the API error or "Failed to log in.". A thrown request sets its message. Loading ends, and no other field changes. |
| AuthPage.Register | frontend/app/dashboard/login/page.tsx:50-69 | Mismatched passwords (untrimmed) set "Passwords do not match." and create no account. A failed creation sets its message or "Failed to sign up.". |
| AuthPage.SignUpAsWritten | frontend/app/dashboard/login/page.tsx:56-64 | As written, every created account is followed by a login and a success alert. |
| AuthPage.SignUpAlertsDespiteFailedLogin | frontend/app/dashboard/login/page.tsx:56-64 | As written, a refused login after sign-up still alerts "logged in", without navigating. |
| AuthPage.SignUp | frontend/app/dashboard/login/page.tsx:50-69 | A login is attempted iff the passwords match and the account was created. The success alert appears iff the login navigated to /dashboard. |
| AuthPage.SignUpAgreesOnSuccess | frontend/app/dashboard/login/page.tsx:56-64 | The corrected and as-written sign-up agree whenever the login succeeds. |
| AuthPage.Submit | frontend/app/dashboard/login/page.tsx:72-80 | With the corrected sign-up: login mode only logs in, without an alert. Sign-up mode creates an account iff the passwords match. After sign-up, the success alert appears iff the login succeeded, and it always comes with navigation to /dashboard. The form fields are kept. |
| AuthPage.SubmitAsWritten | frontend/app/dashboard/login/page.tsx:72-80 | As written: login mode only logs in. In sign-up mode every login attempt is followed by the success alert. |
| AuthPage.SubmitDiffersOnlyInAlert | frontend/app/dashboard/login/page.tsx:56-80 | The corrected and as-written submit agree on everything but the alert, and differ exactly when matching passwords create an account and the login that follows fails. |
| AuthPage.SubmitLoginMode | frontend/app/dashboard/login/page.tsx:72-80 | In login mode, submit is exactly the login. |
| AuthPage.ToggleMode | frontend/app/dashboard/login/page.tsx:153-156 | Flips the mode, clears the error and changes nothing else. |
| AuthPage.ToggleTwice | frontend/app/dashboard/login/page.tsx:153-156 | Toggling twice restores the mode, with the error cleared. |
| AuthPage.EmailKeyDown | frontend/app/dashboard/login/page.tsx:83-88 | Enter in the email field moves focus to the password field. |
| AuthPage.PasswordKeyDown | frontend/app/dashboard/login/page.tsx:90-95 | Enter in the password field moves to the confirmation only in sign-up mode. |
| LoginPage.Blank | frontend/app/login/page.tsx:67-69 | Blank holds iff the user name or the password is all whitespace. |
| LoginPage.HandleSubmit | frontend/app/login/page.tsx:14-26 | A field blank after trimming gives the fill-in alert. Otherwise the untrimmed values are echoed. |
| LoginPage.DisabledIffRefused | frontend/app/login/page.tsx:67-69 | The button is disabled exactly when the handler would refuse, which is when a field is all whitespace. |
| LoginPage.UserNameKeyDown | frontend/app/login/page.tsx:28-35 | Enter in the user-name field moves focus to the password field. |
| OcrSpace.MimeFor | old_c_code/ocrspace.py:25-38 | The lower-cased extension maps .jpg/.jpeg, .png, .gif, .bmp and .pdf to their types. Any other extension has none. |
| OcrSpace.MimeIgnoresCase | old_c_code/ocrspace.py:25 | An extension and its lower-cased form map alike. |
| OcrSpace.UpperCaseJpeg | old_c_code/ocrspace.py:25-27 | ".JPG" is a JPEG and ".PDF" is a PDF. |
| OcrSpace.Interpret | old_c_code/ocrspace.py:70-88 | Text iff the answer is a dict, `IsErroredOnProcessing` equals False, and `ParsedResults` is a non-empty list whose first entry has a string `ParsedText`. The text is that string stripped. |
| OcrSpace.FailuresYieldNothing | old_c_code/ocrspace.py:77-88 | A processing error, or a missing or empty result list, yields no text. |
| OcrSpace.TextIsStripped | old_c_code/ocrspace.py:76 | The text has no surrounding whitespace. |
| OcrSpace.GetText | old_c_code/ocrspace.py:5-98 | A missing file or unknown extension returns None without a request. The request carries the basename, the MIME type, the key, the language, no overlay and engine 2. The result is the answer's interpretation. |
| OcrSpace.ReceiptPhotoSent | old_c_code/ocrspace.py:25-66 | "dir/name.JPG" is sent as "name.JPG" with type image/jpeg. |
| Spoontac.IngredientsString | backend/spoontac.py:26-33 | A list of strings is joined with ",". A list with a non-string raises. A string passes unchanged. Anything else is rejected. |
| Spoontac.IngredientsRecoverable | backend/spoontac.py:27-28 | Comma-free names split back out of the joined parameter, in order. |
| Spoontac.Search | backend/spoontac.py:10-51 | A rejected argument sends nothing. Otherwise the request is BASE_URL + "/recipes/findByIngredients" with exactly apiKey, ingredients and number, and the result is the answer. |
| Spoontac.DefaultSearch | backend/spoontac.py:4-24 | With the defaults, a string is sent unchanged to the findByIngredients URL, with number 5 and an empty key. |
| PyPath.Basename | backend/img_to_gray.py:36 | The basename has no "/" and is the suffix after the last "/". |
| PyPath.SplitExt | backend/img_to_gray.py:37 | The parts concatenate to the path. The extension is empty or a single dotted, "/"-free suffix. |
| PyPath.SplitExtFindsExtension | backend/img_to_gray.py:37 | The extension is non-empty iff the last component has a "." with some character other than "." before it. |
| PyPath.SplitExtDotFile | backend/img_to_gray.py:37 | ".bashrc" has no extension. |
| PyPath.SplitExtDotFileUnder | backend/img_to_gray.py:37 | "dir/.bashrc" has no extension either, for any directory. |
| PyPath.SplitExtOfPath | old_c_code/ocrspace.py:25 | Under a directory, "stem.ext" splits at its last dot. |
| PyPath.JoinBasename | backend/img_to_gray.py:39 | Joining a name onto a directory gives a path whose basename is that name. |
| ImgToGray.OutputPath | backend/img_to_gray.py:35-39 | The output's basename is the input's basename without its extension, then "_processed.jpg". |
| ImgToGray.OutputPathOfPhoto | backend/img_to_gray.py:35-39 | "dir/stem.ext" goes to "out/stem_processed.jpg". |
| ImgToGray.NewSize | backend/img_to_gray.py:50-63 | No resize when the larger side fits. Otherwise the larger side (the height on a tie) becomes the limit, and the other side is the floor of side·limit/larger. |
| ImgToGray.ScaledFloor | backend/img_to_gray.py:54-57 | Truncating side·(limit/larger) in exact arithmetic is the integer quotient. |
| ImgToGray.ResizedFits | backend/img_to_gray.py:50-57 | After a resize, both sides are at most the limit, one equals it, and neither side grows. |
| ImgToGray.ResizeKeepsRatio | backend/img_to_gray.py:52-54 | The shorter side is the largest whole number within the original ratio. |
| ImgToGray.Preprocess | backend/img_to_gray.py:29-86 | A missing input gives None. Success returns the output path with the new dimensions. |
| ImgToGray.TallPhoto | backend/img_to_gray.py:50-57 | A 4000×8000 image becomes 900×1800 with the default limit. |

## Left out

- Cryptography of the session cookie, PocketBase, the hosted AI model, `fetch` and all other network I/O are parameters, not models. So are file-system checks, PIL's decoding, resampling and JPEG encoding, and console output.
- The `pb_auth` cookie the middleware checks and the `session` JWT the API routes verify are kept apart, as the code keeps them.
- JavaScript's `String()` of a non-string error message is a parameter (`str`).
- The wording of engine-generated `TypeError` messages is a fixed placeholder. This affects `.map` on a non-array result in the upload page, and `file.arrayBuffer` on a text form field in the upload route.
- `Array.prototype.sort` compares UTF-16 code units. The model compares code points, which orders the same except for characters outside the Basic Multilingual Plane.
- `toLowerCase` is modelled on Basic Latin and Latin-1 letters only. Python's `lower` in the MIME lookup is modelled the same way; no other character lower-cases into a known extension.
- Next.js compiles the matcher itself. The model reads the pattern as a JavaScript regular expression on the path, and does not model case-insensitive matching or trailing-slash normalisation.
- `request.formData()` failing (a body that is not form data) is not modelled. It throws before the route's own try block.
- Dashboard.AddToGroups: models a key the accumulator holds as its own. A category named after an inherited property, such as "constructor", "toString" or "__proto__", makes the JavaScript reduce throw; `Dashboard.GroupOrThrow` models that case.
- Dashboard.GroupItemsByCategory: describes the reduce's result when no category is an inherited name. `Dashboard.GroupOrThrow` is the reduce including its throw, and `Dashboard.GroupOrThrowGroups` connects the two.
- AuthPage.Submit: dispatches to the corrected sign-up of the finding below. `AuthPage.SubmitAsWritten` dispatches to `handleSignUp` as written, and `AuthPage.SubmitDiffersOnlyInAlert` proves that the two differ only in the alert after a failed login.
- Strings are sequences of Unicode scalar values, so a lone UTF-16 surrogate cannot occur in the model. `encodeURIComponent` throws `URIError` on one, and the recipes route would answer 500; that path is not modelled.
- Dashboard.SelectAllInCategory: reads one selection list. The page filters the new items against `selectedItems` from the last render but appends them to the updater's `prev`; the model treats the two as the same list, which they are between separate clicks.
- UploadPage.ItemChange: requires an index inside the list. The page only calls it from rendered rows; JavaScript would create a sparse entry otherwise.
- RecipesRoute.Handle: the upstream status is passed through as an integer, without the 200-599 range check that `NextResponse` applies.
- The upload page maps every element of `result.text`. A `null` element would throw, and this is not modelled: elements are records.
- Spoontac.Search: exceptions other than request errors are not caught and are not modelled. The second `except` clause names `json`, which the file never imports.
- ImgToGray.NewSize: uses exact arithmetic, not IEEE doubles. For some sizes, `h * (m / w)` rounds just below an integer in floating point and loses one pixel.
- ImgToGray.Preprocess: PIL rejecting a zero-sized resize target, and `os.makedirs` failing, are folded into `saved`, or not modelled.
- The OCR.space `ErrorMessage` and `ErrorDetails` fields are only printed, so they are not modelled.
- `backend/command-api/server.js` duplicates the upload cleanup but cannot reach its success path, because it imports functions `functions.js` does not export. It is not part of this model. Nor are the AI prompt scripts, the PocketBase migrations and the presentation-only components.

## Findings

| source | as written | input that shows it | evidently intended | confidence | as-written member | corrected member |
|---|---|---|---|---|---|---|
| frontend/app/dashboard/login/page.tsx:56-64 | After creating the account, `handleSignUp` awaits `handleLogin` and then always alerts "Sign up successful and logged in!". `handleLogin` catches its own errors, so the alert appears even when the login failed. | Matching passwords; account creation succeeds; `/api/login` answers not-ok. The page shows "Failed to log in." and also alerts success, without navigating. | Alert success only when the login succeeded and navigated to /dashboard. | not executed | AuthPage.SignUpAsWritten, AuthPage.SignUpAlertsDespiteFailedLogin, AuthPage.SubmitAsWritten | AuthPage.SignUp, AuthPage.Submit |
