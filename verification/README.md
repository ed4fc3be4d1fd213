# Countries directory: synchronisation core in Dafny

This project models the logic of a browser-based country directory. The
app lists countries from a public REST endpoint. Signed-in users can save
favourites in a hosted row store, and a server helper authenticates API
requests. Every network or SDK call is an input here: a settled result
(`Result`/`Option`) or, for the token check, a function parameter.

Modules: three shared helpers (`Domain`, `Text`, `Seqs`), then one per source component:

- `Domain`: `Option`, `Result`, JavaScript truthiness of strings, and the `Country`/`Currency` records.
- `Text`: `toLowerCase` over ASCII, the `\s` class, `includes`, `startsWith`, `split` on one character, `join`.
- `Seqs`: `Array.prototype.filter`, the subsequence relation, and flattening a list of lists.
- `Favourites`: the favourites slice. This covers the reducer, the session check, the three thunks with their row-store request, and dispatch.
- `Countries`: the countries slice and `selectCountryByName`.
- `CountryList`: the countries list page. This covers the currency summary, the search filter, the stable four-way sort, the loading gate and the slug.
- `FavouriteButton`: membership, the toggle decision, the render guards, and the toggle composed with the reducer.
- `SupabaseServer`: the server-client environment guard and the bearer-header authentication cascade.
- `CheckImports`: the import-case checker script, over a filesystem given as a tree of entries.

## Model

| member | source | states |
|---|---|---|
| Text.Includes | src/app/countries/page.js:58 | `includes` is true exactly when the needle occurs at some index of the haystack; the empty needle always occurs |
| Text.Split | src/lib/supabase/supabase-server.js:24 | `split` on one character yields at least one part, no part contains the separator, and joining the parts with it gives the input back |
| Text.SplitJoin | src/lib/supabase/supabase-server.js:24 | splitting a join of separator-free parts gives the parts back (the other half of the round trip) |
| Text.JoinSnoc | src/app/countries/page.js:53 | `join` puts exactly one separator between consecutive parts: one more part adds the separator and that part at the end |
| Text.JoinAppend | check-imports.js:50 | joining two non-empty lists of parts is joining each and putting one separator between them |
| Text.SplitAppend | check-imports.js:50 | splitting `a + sep + b` gives the parts of `a` followed by the parts of `b` |
| Seqs.Filter | src/lib/features/favourites/favouritesSlice.js:108-110 | `filter` keeps a subsequence of the input, only elements that pass, and every passing element as often as it occurred |
| Seqs.FlattenMember | check-imports.js:25-35 | an element occurs in the concatenation of a list of lists exactly when it occurs in one of the lists |
| Favourites.WithoutName | src/lib/features/favourites/favouritesSlice.js:107-110 | the removal filter keeps the other entries in their original order, with their multiplicities, and no entry with the removed name |
| Favourites.Reduce | src/lib/features/favourites/favouritesSlice.js:96-119 | pending sets loading, clears error and keeps the list; every settled action ends loading; fetch replaces the list; add keeps the old list as a prefix and appends exactly the row; remove keeps exactly the entries with other names, in order; rejected records the message and keeps the list; fulfilled actions leave error alone |
| Favourites.CurrentSession | src/lib/features/favourites/favouritesSlice.js:10-22 | a session is usable exactly when getSession reported no error and returned a session with a non-empty access token; every other answer fails with "No valid authentication session found"; a `getSession` that throws fails with the thrown message |
| Favourites.FetchFavourites | src/lib/features/favourites/favouritesSlice.js:26-44 | without a session: rejected with the session check's message and no row-store request; otherwise a select scoped to the user's id, fulfilled with the rows (a null result becomes `[]`) or rejected with the store's message |
| Favourites.AddFavourite | src/lib/features/favourites/favouritesSlice.js:46-68 | without a session: rejected with the session check's message, no request; otherwise an insert of the row {user id, common name, whole country}, fulfilled with the returned row or rejected with the store's message |
| Favourites.RemoveFavourite | src/lib/features/favourites/favouritesSlice.js:70-88 | without a session: rejected with the session check's message, no request; otherwise a delete by user id and name, fulfilled with the name when the delete reports no error (zero rows matched included) |
| Favourites.Dispatch | src/lib/features/favourites/favouritesSlice.js:98-117 | a thunk's pending action followed by its settling action: loading ends false; a rejection keeps the list and records its message; a success leaves error cleared |
| Favourites.NoSessionRejectsAll | src/lib/features/favourites/favouritesSlice.js:17-19 | without a usable session, fetch, add and remove all reject with the fixed message (or, when `getSession` throws, its message) before any row-store request (lines 30, 50 and 74 call the check first), and the list is unchanged whatever the store would have said |
| Favourites.RemoveAbsentIsNoOp | src/lib/features/favourites/favouritesSlice.js:107-111 | removing a name no entry carries leaves the list and the error exactly as they were; only loading becomes false |
| Favourites.AddThenRemove | src/lib/features/favourites/favouritesSlice.js:106-110 | add(C) then remove(C's common name), both fulfilled, leave the old list minus every entry of that name; the old list comes back if and only if no earlier entry had that name |
| Countries.Reduce | src/lib/features/countries/countriesSlice.js:34-50 | setSelectedCountry stores the country and clears error, keeping countries and loading; clearSelectedCountry clears selection and error only; fetch fulfilled replaces countries only; fetch pending and rejected change nothing |
| Countries.FindFrom | src/lib/features/countries/countriesSlice.js:25-29 | the scan behind `find` returns the first index from the start point whose country matches, or none when no later country matches |
| Countries.SelectCountryByName | src/lib/features/countries/countriesSlice.js:24-30 | a returned country is an element of the list whose lowered common or official name equals the lowered query, and no earlier element matches; nothing is returned exactly when no element matches (so always for an empty list) |
| Countries.SelectIgnoresCase | src/lib/features/countries/countriesSlice.js:26-28 | two queries with equal lowered forms select the same country |
| Countries.SelectFindsFirstMatch | src/lib/features/countries/countriesSlice.js:25 | a matching country with no matching predecessor is the one returned |
| CountryList.GetCurrencies | src/app/countries/page.js:49-54 | "N/A" without a currencies object, "" for an empty one, and one "name (symbol)" label for a single entry |
| CountryList.GetCurrenciesSnoc | src/app/countries/page.js:51-53 | each further currency entry adds exactly ", " and its "name (symbol)" label at the end |
| CountryList.CurrencyLabels | src/app/countries/page.js:52 | one label per currency entry, in entry order |
| CountryList.SearchCountries | src/app/countries/page.js:56-59 | the filtered list is a subsequence of the countries; each kept country's lowered common name contains the lowered term; every country that contains it is kept, with its multiplicity |
| CountryList.EmptySearchKeepsAll | src/app/countries/page.js:57-59 | an empty search term keeps every country in order |
| CountryList.CompareAntisymmetric | src/app/countries/page.js:60-73 | for each sort key the comparator flips sign when its arguments swap (positive and negative trade places, zero stays zero), given a consistent `localeCompare` |
| CountryList.CompareTransitive | src/app/countries/page.js:60-73 | for each sort key "not after" is transitive, given a consistent `localeCompare` |
| CountryList.Insert | src/app/countries/page.js:60-73 | inserting one country into a list adds exactly that element (multiset) |
| CountryList.SortCountries | src/app/countries/page.js:60-73 | the sorted list is a permutation of the filtered list |
| CountryList.InsertSorted | src/app/countries/page.js:60-73 | inserting into a sorted list keeps it sorted |
| CountryList.SortIsSorted | src/app/countries/page.js:60-73 | the sorted list is ordered by the comparator of the selected key |
| CountryList.SortedMeaning | src/app/countries/page.js:62-69 | sorted under popAsc means non-decreasing population and under popDesc non-increasing; under nameAsc common names ascend, and under nameDesc they descend, by `localeCompare` |
| CountryList.UnknownOrderKeepsOrder | src/app/countries/page.js:70-71 | an unrecognised sort key ties everything, so the stable sort keeps the filtered order |
| CountryList.ListPage | src/app/countries/page.js:47-73 | the page shows "Loading" exactly when the country list is empty, otherwise cards that are a permutation of the search result |
| CountryList.ListPageCards | src/app/countries/page.js:56-73 | every card is a country of the list whose common name contains the search term, and the cards are in the selected order |
| CountryList.ListPageIdentity | src/app/countries/page.js:56-73 | with an empty search and an unrecognised key the cards are the stored list itself |
| CountryList.CollapseClean | src/app/countries/page.js:76 | the collapsed string contains no whitespace, is no longer than its input, and gains no upper-case letters |
| CountryList.Slug | src/app/countries/page.js:76 | the slug contains neither whitespace nor upper-case ASCII letters and is no longer than the name |
| CountryList.CollapseAppend | src/app/countries/page.js:76 | collapsing a concatenation collapses the second part in the state the first leaves: whether the first ended inside a whitespace run |
| CountryList.CollapseRun | src/app/countries/page.js:76 | a non-empty whitespace run becomes one "-", or nothing when it continues an earlier run |
| CountryList.CollapseAfterRun | src/app/countries/page.js:76 | text that does not start with whitespace collapses alike whether or not a run preceded it |
| CountryList.SlugOfWord | src/app/countries/page.js:76 | a name without whitespace is only lowered |
| CountryList.SlugOfRun | src/app/countries/page.js:76 | a maximal whitespace run between two parts becomes exactly one "-" between their slugs |
| FavouriteButton.IsFavourite | src/components/FavouriteButton.jsx:15-19 | a country is a favourite exactly when some entry's name equals its common name |
| FavouriteButton.ToggleIntent | src/components/FavouriteButton.jsx:22-28 | a click removes by common name exactly when the country is a favourite, and otherwise adds the whole country |
| FavouriteButton.Render | src/components/FavouriteButton.jsx:30-46 | nothing renders without a user; the button is disabled exactly while loading; icon, colour and tooltip follow the favourite state |
| FavouriteButton.Click | src/components/FavouriteButton.jsx:37-39 | a click dispatches the toggle exactly when the button is shown and enabled |
| FavouriteButton.RunIntent | src/components/FavouriteButton.jsx:23-27 | without a session nothing reaches the row store and the toggle is rejected with the session check's message; otherwise a removal deletes the user's row with that name and an addition inserts the row {user id, common name, whole country}, each settling by the store's answer |
| FavouriteButton.ClickMatchesButton | src/components/FavouriteButton.jsx:30-46 | the button can be clicked exactly when it is shown and enabled |
| FavouriteButton.ClickRequest | src/components/FavouriteButton.jsx:22-28 | a click on a favourite deletes the user's row with its common name, a click on any other country inserts the user's row for it, and without a session nothing is sent |
| FavouriteButton.ToggleFlips | src/components/FavouriteButton.jsx:22-28 | a fulfilled toggle flips whether the country is a favourite (remove filters every match; an add whose returned row carries the common name appends one); a rejected toggle keeps the list |
| SupabaseServer.ServerClient | src/lib/supabase/supabase-server.js:3-14 | fails with "Missing Supabase server environment variables" exactly when the URL or service key is missing or empty; otherwise a client on them that neither refreshes tokens nor persists a session |
| SupabaseServer.BearerToken | src/lib/supabase/supabase-server.js:24 | the token is the longest space-free prefix of the text after "Bearer ", possibly empty |
| SupabaseServer.GetAuthenticatedUser | src/lib/supabase/supabase-server.js:17-49 | exactly one of user and error is present; a missing or non-"Bearer " header fails with "No authorization header", then missing public env fails with its message; a user is returned only when the verifier answered that user with no error for the extracted token; an exception thrown while verifying yields no user and its message |
| SupabaseServer.ChecksPrecedeVerifier | src/lib/supabase/supabase-server.js:19-33 | when the header or environment check fails, the result has no user and is the same for any verifier: the verifier is never consulted |
| SupabaseServer.RejectedTokenMessage | src/lib/supabase/supabase-server.js:41-45 | a verifier error with a message yields that message; an empty message, or no error and no user, yields "Invalid token"; a user without error is returned with error null |
| SupabaseServer.TokenIsSecondField | src/lib/supabase/supabase-server.js:24 | for "Bearer abc def" the token is "abc" |
| SupabaseServer.TokenMayBeEmpty | src/lib/supabase/supabase-server.js:24 | "Bearer " and "Bearer  abc" hand the verifier the empty token |
| CheckImports.FileExistsExact | check-imports.js:12-20 | false when the directory does not exist; otherwise whether the base name is verbatim among the directory's entry names; the script stops exactly when the directory path names a non-directory |
| CheckImports.Normalize | check-imports.js:50 | joining a directory of ordinary segments with an import never leaves "", "." or ".." segments |
| CheckImports.NormalizePlain | check-imports.js:50 | without ".." segments, normalising appends exactly the segments other than "" and ".", in order |
| CheckImports.NormalizeAppend | check-imports.js:50 | normalising a concatenation of segment lists normalises the second onto the result of the first |
| CheckImports.ResolveSegments | check-imports.js:50 | `path.join(dirname, import)` keeps a clean directory clean; without ".." it is the directory followed by the import's segments other than "" and "."; the result keeps a trailing slash exactly when the import ends in "/" and the result is not the filesystem root |
| CheckImports.ResolveJoin | check-imports.js:50 | joining `a/b` onto a directory lands where joining `a` and then `b` does |
| CheckImports.ResolveParent | check-imports.js:50 | a leading "../" leaves the directory's last segment, and at the filesystem root stays there |
| CheckImports.Locate | check-imports.js:13-14 | dirname followed by basename is the resolved path; the filesystem root has itself as directory and the empty base name |
| CheckImports.Probe | check-imports.js:58 | appending an extension to a path without a trailing slash lengthens its base name in the same directory; after a trailing slash (or at the filesystem root) the extension becomes a base name of its own inside the resolved directory |
| CheckImports.LastDot | check-imports.js:55 | the index returned holds a '.' and no '.' follows it; none means the name has no '.' |
| CheckImports.Extname | check-imports.js:55 | the extension is empty or a suffix of the name that starts with its only '.'; a name without '.' has none |
| CheckImports.ExtnameExists | check-imports.js:55 | a name has a non-empty extension exactly when it is not ".." and has a '.' after its first character |
| CheckImports.ProbeExtname | check-imports.js:55-58 | a probed name `base + ext` for a listed extension has exactly that extension, so the probe targets are the names the extension test looks for |
| CheckImports.ProbeAny | check-imports.js:57-59 | the probe is negative exactly when no listed extension completes the path, and positive exactly when some extension does and every earlier one definitely did not |
| CheckImports.CheckImportCases | check-imports.js:49-65 | non-relative imports are never reported; an import whose resolved path exists exactly is never reported; one with a listed extension that does not exist is reported; one without is reported exactly when the probes find nothing |
| CheckImports.UnextendedImportReported | check-imports.js:53-61 | an import without a listed extension that does not exist as written is reported exactly when no `path + ext` exists for any listed extension |
| CheckImports.FileReport | check-imports.js:45-66 | the loop over a file's imports prints only reported imports of that file, prints every reported import when it is not cut short, and is cut short exactly when some import's check ends the script |
| CheckImports.FirstAbort | check-imports.js:45-66 | the imports before the returned index all settle, and the import at it (if any) ends the script |
| CheckImports.FileReportInOrder | check-imports.js:45-66 | the loop prints one line per reported import, in import order, up to the first import that ends the script |
| CheckImports.CheckFile | check-imports.js:40-66 | a file's report lists exactly its imports that the check reports, all attributed to that file; the file stops the script exactly when one of its imports does |
| CheckImports.CheckFileInOrder | check-imports.js:45-66 | `checkImports` prints the file's reported imports in the order they occur, up to the first import whose check ends the script |
| CheckImports.ScanComplete | check-imports.js:23-37 | the scan hands over exactly the files anywhere below the folder whose extension is listed, recursing into every subdirectory |
| CheckImports.VisitComplete | check-imports.js:26-35 | one entry contributes itself when it is a selected file, everything selected below it when it is a directory, and nothing otherwise |
| CheckImports.AllReport | check-imports.js:25-35 | checking files in turn prints only lines some file's check prints |
| CheckImports.FirstAbortedFile | check-imports.js:25-35 | the files before the returned index finish their check, and the file at it (if any) ends the script |
| CheckImports.AllReportAborts | check-imports.js:25-35 | checking files in turn ends the script exactly when checking one of the files does |
| CheckImports.AllReportInOrder | check-imports.js:25-35 | the lines are the concatenation of the files' own lines in file order, up to and including the file that ends the script |
| CheckImports.CheckAll | check-imports.js:23-37 | every reported mismatch belongs to one of the scanned files |
| CheckImports.CheckAllInOrder | check-imports.js:23-37 | the run prints each scanned file's lines in scan order, up to and including the file whose check ends the script |
| CheckImports.CheckAllAborts | check-imports.js:23-37 | the run over the scanned files ends early exactly when checking one of them does |
| CheckImports.CheckAllExact | check-imports.js:23-37 | a run that is not cut short prints a line exactly when it names one of the files and one of its imports that the check reports |
| CheckImports.ScanPathsNonEmpty | check-imports.js:26 | every scanned file has a non-empty path |
| CheckImports.ScanPrefix | check-imports.js:25-29 | every scanned path lies below the folder, in the subtree of one of its entries |
| CheckImports.VisitPrefix | check-imports.js:26-29 | every file a visited entry hands over lies in the folder, below that entry's name |
| CheckImports.ScanDistinct | check-imports.js:23-37 | when every directory lists each name once, the scan hands each file over once: no path occurs twice |
| CheckImports.ScriptSourcesDistinct | check-imports.js:71 | in such a tree the script checks every scanned file once |
| CheckImports.ScriptSources | check-imports.js:71 | for a root folder that is a directory, the scan of its entries: exactly the selected files below it, each with a non-empty path; none otherwise |
| CheckImports.ScanMembers | check-imports.js:23-37 | a file is scanned exactly when it lies below the folder and its name has a listed extension |
| CheckImports.RunScript | check-imports.js:71 | a missing or non-directory root ends the script with nothing printed; every printed mismatch names a scanned file |
| CheckImports.RunScriptInOrder | check-imports.js:23-37 | the script prints each scanned file's lines in scan order, up to and including the file whose check ends the script |
| CheckImports.RunScriptAborts | check-imports.js:71 | for an existing root folder the script ends early exactly when checking one of the scanned files does |
| CheckImports.RunScriptExact | check-imports.js:23-37 | a run that is not cut short prints exactly the pairs of a scanned file and one of its reported imports |
| CheckImports.MismatchesPrinted | check-imports.js:23-37 | every reported import of every selected file under the root folder is printed, unless the run is cut short |
| CheckImports.ReportedFilesAreScanned | check-imports.js:23-37 | every reported file lies below the scanned folder and has a listed extension |

## Left out

- Network and SDK calls (axios in `fetchCountries`, Supabase `getSession`, `select`/`insert`/`delete`, `createClient`, `getUser`): their settled results are inputs. The order by `created_at` is the store's and is not modelled.
- Redux Toolkit, Immer and thunk scheduling: actions are applied one at a time. Concurrent operations and their interleaving are not modelled.
- Rendering: only the decisions of `FavouriteButton.jsx` (shown, disabled, icon, colour, tooltip) and the page's loading gate are modelled. The other components, the hooks, `next.config.mjs` and the public API route are not part of this model.
- The country detail page (`countries/[slug]/page.js`), which decodes slugs and drives the selection, is not modelled, and neither is the slug-to-country round trip.
- `toLowerCase` lowers ASCII letters only. `localeCompare` is a parameter assumed consistent (sign-antisymmetric and transitive). `encodeURIComponent` on the slug and `toLocaleString` are not modelled.
- `Country` carries only the fields the modelled code reads: common and official name, population, currencies.
- CountryList.SortCountries: stability is proved only in the all-ties case (unrecognised key). For the other keys the model is sorted and a permutation, but the relative order of ties is not stated.
- CheckImports: names are compared case-sensitively at every path segment. The host filesystem's case folding in `existsSync` (check-imports.js line 16) is not modelled, so on a case-insensitive host the script can accept a directory whose case differs, which the model reports.
- CheckImports: the regular-expression extraction of import strings is not modelled; each file carries its import list. Symbolic links are not modelled, and `Other` entries stand for sockets, pipes and devices. Console output is the `Report` value.
- Favourites: the second dynamic import of the Supabase client in each thunk (favouritesSlice.js lines 31, 51 and 75) is not a separate step; its failure counts as the row store's error reply, and the model still records the request as issued.
- CheckImports: the script checks each selected file as soon as the scan meets it; the model scans first and then checks the files in scan order. The printed lines and the point where an exception ends the script are the same.
- Logging is not modelled: the `console.error` call on every rejected thunk (favouritesSlice.js line 114) leaves no trace in the model.
- `getAuthenticatedUser` reads only the `authorization` header, so the request is that header's value. A verifier error whose message is missing is written as the empty message; JavaScript treats both as falsy.
- A currency field missing from the remote record prints as `undefined`; a `null` field, which would print as `null`, is not distinguished.
