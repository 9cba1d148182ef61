# GitLab PyPI package manager: a Dafny model of its decision logic

`script.py` manages PyPI packages stored in GitLab package registries: it lists a project's
packages page by page, mirrors ("clones") every package file from one project to another,
exports a CSV of package names and versions, bulk-deletes a project's packages after a
confirmation, and can log in through a local OAuth2 authorization-code flow.

Almost all of the script is HTTP, file and process plumbing. This model replaces every such
call by the value it returns and keeps the sequential decisions underneath:

- `Registry` (registry.dfy): a registry project as the script sees it during one run: the
  `X-Total-Pages` header, the ids on each listing page, each package's name and version, the
  `href` targets of each simple-index page, and the `content-disposition` of each download.
  The uncaught exceptions that end a run (missing or non-integer pagination header, missing
  `content-disposition`, no `filename="..."` in it) form the `Fatal` datatype.
- `Lister` (lister.dfy): the page loop of `get_pypi_project_id_list`, proved equal to the
  concatenation of pages 1..N, with lemmas for length, order and membership.
- `Mirror` (mirror.dfy): the nested loop of `clone_all_pypi_packages_from_src_to_dst`. Downloads,
  local writes, uploads (with the destination's answer) and removals are events of a trace, and
  `temporary_cache` is the run's `cache`. The lemmas prove these properties:
  - every URL is downloaded until the first one that names no file;
  - each file name is uploaded at most once, in first-occurrence order across all packages;
  - a file is written right after the download that announces it, exactly when no earlier
    download announced the same name;
  - each written file is uploaded and then removed before the next download;
  - a rejected upload changes nothing but its own recorded outcome.
- `Inventory` (inventory.dfy): the CSV export, one row per listed id in listing order, with no
  deduplication.
- `Deleter` (deleter.dfy): the confirmation gate and one DELETE per listed id.
- `OAuth` (oauth.dfy): the module-level `auth_code` slot as a `Session` class. The callback
  handler and `sso_authenticate` are its methods. The token/user branch structure is the
  function `Exchange`.
- `Seqs` and `Wrappers` (seqs.dfy, wrappers.dfy): flattening, first-occurrence deduplication,
  `Option` and `Result`.

The script presents the CSV export as unique: the function is
`get_uniq_pypi_package_name_and_version_csv` (script.py:135), the file it writes is
`get-uniq-pypi-package-name-and-version.csv` (script.py:136), and the `get_csv` help text
promises "a CSV with unique PyPI package names and versions" (script.py:202). The code writes
every row, including repeats. The model follows the code.

## Model

| member | source | states |
|---|---|---|
| `Lister.ListPackageIds` | script.py:122-132 | the page loop returns exactly the lister's result: the header error, or the ids of pages 1..N concatenated in page order |
| `Lister.ListedIdsFailsOnlyOnHeader` | script.py:114-125 | listing fails exactly when `X-Total-Pages` is missing (KeyError) or not an integer (ValueError) |
| `Lister.ListedIdsEmptyWithoutPages` | script.py:125-127 | a total page count of 0 (or less) makes `range(1, N + 1)` empty, so nothing is listed |
| `Lister.ListedIdsLength` | script.py:126-131 | no deduplication: the list is as long as the per-page id counts added up |
| `Lister.ListedIdsPosition` | script.py:127-131 | pages are appended in increasing order: id `j` of page `i` sits right after all ids of pages 1..i-1 |
| `Lister.ListedIdsMembers` | script.py:127-131 | an id is listed exactly when some page 1..N carries it |
| `Mirror.Clone` | script.py:144-171 | the nested package/URL loop produces exactly the run `CloneRun` defines: listing failure before any event, then per URL a download, and on a new file name a write, an upload and a removal |
| `Mirror.Fetch` | script.py:159-171 | one pass of the URL loop is exactly one step of the run: a download, then the file-name error, or a new name appended to the cache with its write, upload (with the destination's answer) and removal, or nothing more for a cached name |
| `Mirror.GrowDedup` | script.py:163-164 | appending each name not yet in `temporary_cache` to the first-occurrence list of the names seen so far gives the first-occurrence list of all the names |
| `Mirror.FirstUnnamed` | script.py:159-161 | the position where the run stops: every earlier URL's download names a file, the URL there does not |
| `Mirror.CloneDownloadsEveryUrl` | script.py:152-161 | a run completes exactly when every URL names a file; it then has downloaded every URL in order, and otherwise stopped right after the first URL without a file name, with that URL's error |
| `Mirror.CloneUploadsFirstOccurrences` | script.py:163-168 | the uploads equal `temporary_cache`, which is the distinct file names of the processed URLs in first-occurrence order across packages; no name is uploaded twice |
| `Mirror.CloneLeavesNoLocalFile` | script.py:163-171 | on every run, each written file is uploaded and then removed before anything else happens; written, uploaded and removed files are the same list without repeats; each upload records the destination's answer |
| `Mirror.CloneMirrorsEachNewNameAtItsDownload` | script.py:159-171 | on every run, each write comes immediately after the download announcing its file, and no earlier download announced that name; every download announcing a name no earlier download announced is immediately followed by that file's write, upload (with the destination's answer) and removal |
| `Mirror.TidyWriteIsRemoved` | script.py:165-171 | in a `Tidy` trace, a write of a file is followed immediately by its upload and its removal |
| `Mirror.CloneUploadFailureDoesNotStopRun` | script.py:167-171 | whatever the destination answers to uploads, the same URLs are downloaded, the same files written, uploaded and removed, and the run ends the same way |
| `Inventory.ExportInventory` | script.py:135-141 | the export loop writes exactly the rows of the inventory: none after a listing failure (the file was truncated first), else one per listed id |
| `Inventory.InventoryOneRowPerId` | script.py:136-141 | one row per listed id in listing order, each the id's name and version; as many rows as the pages hold ids |
| `Inventory.InventoryEmptyOnListingFailure` | script.py:136-137 | a listing failure leaves the truncated file empty and ends the export with the header's error: `MissingTotalPages` for a missing `X-Total-Pages`, `MalformedTotalPages` for a non-integer one |
| `Inventory.InventoryKeepsDuplicates` | script.py:137-141 | two ids with the same name and version give two equal rows; nothing is collapsed |
| `Inventory.InventoryTwoVersionsOfOnePackage` | script.py:135-141 | ids [10, 11] for pkgA 1.0 and 1.1 export exactly the rows `pkgA,1.0` then `pkgA,1.1` |
| `Deleter.ConfirmedExactly` | script.py:176-177 | the gate `confirmation.lower() == 'yes'` accepts exactly the case variants of "yes" |
| `Deleter.DeleteUrlAsWrittenMissesApi` | script.py:175-185 | the DELETE URL as written is the package's API endpoint without its `/api/v4` segment, so never equal to it |
| `Deleter.DeleteAll` | script.py:174-187 | no DELETE unless confirmed (then nothing is even listed); a listing failure aborts; an empty list stops with "No packages found"; else exactly one DELETE per listed id, in list order, to that package's API endpoint |
| `OAuth.Exchange` | script.py:75-101 | no request without a non-empty code, and a non-empty code always sends the token POST; the token POST carries the code, client id and secret, grant type and redirect URI; the user GET is sent exactly when the token reply is 200, with the access token as bearer; credentials exactly when the user reply is 200, and then they are that token and username |
| `OAuth.ExchangeSucceedsOnlyOnHappyPath` | script.py:75-101 | credentials come back exactly along "code captured, token 200, user 200" |
| `OAuth.Session.constructor` | script.py:15-22 | client id and secret come from the environment at start, and `auth_code` starts empty |
| `OAuth.Session.HandleCallback` | script.py:26-39 | with a `code` parameter: store its first value and answer 200; without one, answer 400 and leave the stored code unchanged |
| `OAuth.Session.Authenticate` | script.py:58-101 | with no client id or secret: no credentials, no request, stored code untouched. Otherwise the stored code is reset, so only the listener's one request can set it, and the result is the exchange on that code |

## Findings

| source | as written | input that shows it | evidently intended | confidence | as-written member | corrected member |
|---|---|---|---|---|---|---|
| script.py:175-185 | `delete_all_pypi_packages` computes the API root `{server}/api/v4` but never uses it. Each DELETE goes to `{server}/projects/{project}/packages/{id}`, which is not the REST endpoint of the package. | any confirmed run with a non-empty package list, e.g. server `https://gitlab.example`, project `7`, id `42`: DELETE `https://gitlab.example/projects/7/packages/42` instead of `https://gitlab.example/api/v4/projects/7/packages/42` | DELETE the package's API endpoint, the same URL `get_pypi_package_info` reads (script.py:105-107) | high; not executed | `Deleter.DeleteUrlAsWrittenMissesApi` | `Deleter.DeleteAll` |

## Left out

- HTTP requests, the `lxml` href extraction, the `twine` upload and `webbrowser.open` are foreign library calls. Each is an input: a registry answer, or a function from the request to its reply. The model assumes the registry gives the same answer to the same request throughout a run.
- Network errors raised by `requests` are not modelled. Neither is a JSON reply that lacks a field the script reads (`id`, `name`, `version`, `access_token`, `username`). The model assumes each of those fields is present.
- The upload's success or failure is a function of the file name alone (`accepts`). That is no restriction, because a run uploads each name at most once. The model does not keep the downloaded bytes.
- Only download, write, upload and removal are trace events. The package-info and simple-index requests of the clone loop are not recorded, and failures of the local file write or of `os.remove` are not modelled.
- `HTTPServer` and `threading` (script.py:42-45, 64-73): the callback listener is modelled as one call that runs before the code check, as the join orders it. The unbounded wait for the browser redirect (a possible hang) and binding port 8000 are not modelled. The 200 reply's body and headers are not modelled.
- `get_gitlab_oauth_url` (script.py:48-55) is not modelled. It only joins the server, `/oauth/authorize` and fixed parameters through `urlencode`, and its result is only printed and opened in a browser.
- `Deleter.ConfirmedExactly`: `str.lower()` is modelled on the letters A-Z only. The comparison with `"yes"` does not change, because no other character lower-cases to `y`, `e` or `s`.
- The `X-Total-Pages` value is taken as already converted by `int()`. A value `int()` rejects is the `NotAnInteger` case, and the text parsing itself is not modelled. The filename regex is an oracle: either no header, no match, or a name.
- The DELETE responses are ignored, as in the script. `Deleter.DeleteAll` sends the requests to the corrected URL (see Findings).
- CSV formatting is left out: the CSV file is its list of rows. `parse_args` and the `__main__` argument checks (script.py:190-268) are left out, as is the printing of `get_pypi_package_info`.
