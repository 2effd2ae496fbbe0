# Photoshare request logic and configuration, in Dafny

Photoshare is a small self-hosted photo sharing web application written with
Flask. One shared password unlocks a session; the logged-in visitor then
browses directories of media files ten files per page, views single photos
and downloads files from a separate downloads folder. The password hash
reaches the application through the environment, with every `$` doubled by
Docker Compose's escaping, and the configuration class undoes that.

This project models:

- `is_media_file`: classification of a file name by its lower-cased
  extension, with `os.path.splitext`'s rule that leading dots of the final
  component do not start an extension (module `MediaFiles`, on top of
  `PosixPath`, which models `rfind`, `os.path.join`, `basename`, `dirname`
  and `splitext`).
- The listing computation of `show_directory`: files and subdirectories of
  the requested directory, each sorted in Python's string order, the page
  `files[(page-1)*10 : page*10]` with Python's slice rules (page 0 gives the
  empty page), the page count `(n + 9) // 10`, and subdirectories only on
  page 1 (module `Listing`).
- The session state machine: `index` (landing page when logged in, login
  form and password check otherwise), `logout` and the wrapper built by
  `login_required`. The session is a `logged_in` flag plus the queue of
  flashed messages. The transitions are functions on a `SessionState` value
  (`IndexStep`, `LogoutStep`, `GuardStep`), and the class `App.Session`
  changes its fields in place, with each method proved equal to its
  transition function. A trace lemma gives the flag after any sequence of
  requests (module `App`).
- The not-found decisions of `show_photo` and `download_file`, and the
  listing failure of `show_directory` (module `App`).
- The `Config` class of `config.py`: the two signing keys with their local
  fallbacks, and `PSHR` turned into `PASSWORD_HASH` by replacing every
  `$$` with `$`, or into `None` when it is unset or empty (module
  `Settings`).

The bcrypt check, the filesystem and percent-decoding are parameters:

- `check_password_hash` is a function argument of type
  `(Option<string>, string) -> bool`.
- The filesystem is a `FileSystem` value. It holds what `os.listdir`
  returns for each existing directory, with each entry's kind, and the set
  of paths for which `os.path.exists` holds.
- `unquote` is a function argument.

The code does not keep served paths inside the media or downloads folder.
`os.path.join` lets an absolute
decoded segment replace the whole prefix, and `..` segments pass through
unchanged. The model follows the code. `App.PhotoPathNotContained` states
the absolute-segment case, and no lemma claims containment. `login_required`
is defined, but no route in `app.py` is decorated with it. So the model
states what the wrapper does and does not claim that any route is guarded.

## Model

| member | source | states |
|---|---|---|
| `MediaFiles.IsMediaFile` | ansible/roles/webapp/files/deploy/app.py:48-59 | `is_media_file` holds exactly when the name, ignoring case, ends in `.jpg`, `.jpeg`, `.png`, `.mov` or `.mp4` and some non-dot character of its final component precedes that ending |
| `MediaFiles.MediaFileEndsInMediaExtension` | ansible/roles/webapp/files/deploy/app.py:48-59 | a name whose lower-cased `splitext` extension is a media extension ends, ignoring case, in that extension preceded by a non-dot character of its final component |
| `MediaFiles.EndsInMediaExtensionIsMedia` | ansible/roles/webapp/files/deploy/app.py:48-59 | conversely, such a name has a media extension |
| `MediaFiles.UpperCaseExample` | ansible/roles/webapp/files/deploy/app.py:58-59 | `A.JPG` is media: case is ignored |
| `MediaFiles.LastDotExample` | ansible/roles/webapp/files/deploy/app.py:58-59 | `clip.tar.Mp4` is media: only the last dot counts |
| `MediaFiles.NoStemExamples` | ansible/roles/webapp/files/deploy/app.py:58-59 | `jpg` and `.jpg` are not media: a bare extension or a dot-file has no extension |
| `MediaFiles.LeadingDotsExample` | ansible/roles/webapp/files/deploy/app.py:59 | `photos/..png` is not media: leading dots of the final component do not start an extension |
| `MediaFiles.ParentDotExample` | ansible/roles/webapp/files/deploy/app.py:59 | `album.jpg/notes` is not media: a dot in a parent directory does not count |
| `MediaFiles.WithoutExtensionNotMedia` | ansible/roles/webapp/files/deploy/app.py:59 | a name for which `splitext` finds no extension is not media |
| `MediaFiles.MediaExtensionShape` | ansible/roles/webapp/files/deploy/app.py:58 | each media extension starts with its only dot and has no slash |
| `MediaFiles.Lower` | ansible/roles/webapp/files/deploy/app.py:59 | lower-casing keeps the length, leaves no ASCII capital letter and keeps every other character in place |
| `MediaFiles.LowerIdempotent` | ansible/roles/webapp/files/deploy/app.py:59 | lower-casing twice is lower-casing once |
| `PosixPath.Extension` | ansible/roles/webapp/files/deploy/app.py:59 | the extension `splitext` returns is a suffix of the name, empty or one dot followed by no dot and no slash |
| `PosixPath.ExtensionFromSuffix` | ansible/roles/webapp/files/deploy/app.py:59 | conversely, a dot-led suffix without dots or slashes that follows a non-dot character of the final component is the extension |
| `PosixPath.LastIndex` | ansible/roles/webapp/files/deploy/app.py:59 | `rfind` gives the last occurrence, or -1 exactly when there is none |
| `PosixPath.JoinAbsoluteResets` | ansible/roles/webapp/files/deploy/app.py:25-35 | in `join_static_path`, a segment that starts with `/` discards the static folder and every earlier segment |
| `PosixPath.JoinStep` | ansible/roles/webapp/files/deploy/app.py:35 | one step of `os.path.join` ends with the new segment, right after a slash unless nothing precedes it; an absolute segment replaces the path and a relative one extends it |
| `PosixPath.Join` | ansible/roles/webapp/files/deploy/app.py:25-35 | the joined path ends with the last segment, right after a slash unless nothing precedes it; without absolute segments it starts with the first argument (the static folder), which says nothing about `..` |
| `PosixPath.JoinSnoc` | ansible/roles/webapp/files/deploy/app.py:35 | joining one more segment at the end is one more join step |
| `PosixPath.JoinBasename` | ansible/roles/webapp/files/deploy/app.py:116-119 | the final component of a joined path is the last segment whenever that segment has no slash |
| `PosixPath.SegmentBasename` | ansible/roles/webapp/files/deploy/app.py:119 | a slash-free segment that ends a path, after a slash or alone, is the path's base name |
| `PosixPath.Basename` | ansible/roles/webapp/files/deploy/app.py:119 | the base name is the slash-free suffix of the path that follows its last slash, or the whole path when it has none |
| `PosixPath.Dirname` | ansible/roles/webapp/files/deploy/app.py:119 | the directory name is the path up to and including its last slash with the trailing slashes removed, except that a head made only of slashes is kept whole; what is removed is slashes only |
| `PosixPath.StripTrailingSlashes` | ansible/roles/webapp/files/deploy/app.py:119 | `rstrip('/')` gives the prefix that does not end in a slash and leaves off only slashes |
| `Listing.LessEqTotal` | ansible/roles/webapp/files/deploy/app.py:137-140 | Python's string order compares any two names |
| `Listing.LessEqReflexive` | ansible/roles/webapp/files/deploy/app.py:137-140 | Python's string order is reflexive |
| `Listing.LessEqAntisymmetric` | ansible/roles/webapp/files/deploy/app.py:137-140 | two names each at most the other are equal |
| `Listing.LessEqTransitive` | ansible/roles/webapp/files/deploy/app.py:137-140 | Python's string order is transitive |
| `Listing.LessEq` | ansible/roles/webapp/files/deploy/app.py:137-140 | Python's string order holds exactly when the first name is a prefix of the second or, at the first position where they differ, has the smaller code point |
| `Listing.LexicographicStep` | ansible/roles/webapp/files/deploy/app.py:137-140 | comparing two non-empty names lexicographically is comparing their first characters, then the rests |
| `Listing.Insert` | ansible/roles/webapp/files/deploy/app.py:137-140 | inserting into a sorted list keeps it sorted and adds exactly that name |
| `Listing.InsertAfter` | ansible/roles/webapp/files/deploy/app.py:137-140 | a name at most every name inserted after it may head the sorted list |
| `Listing.InsertBefore` | ansible/roles/webapp/files/deploy/app.py:137-140 | a name at most the head of a sorted list may go in front of it |
| `Listing.Sort` | ansible/roles/webapp/files/deploy/app.py:137-140 | `sorted` returns a sorted permutation of its input |
| `Listing.SortedUnique` | ansible/roles/webapp/files/deploy/app.py:137-140 | a sorted permutation is unique, so `Sort` agrees with Python's `sorted` |
| `Listing.SortedHeadIsLeast` | ansible/roles/webapp/files/deploy/app.py:137-140 | the head of a sorted list is at most each of its names |
| `Listing.SortedTail` | ansible/roles/webapp/files/deploy/app.py:137-140 | the tail of a sorted list is sorted and holds all but its head |
| `Listing.FileNames` | ansible/roles/webapp/files/deploy/app.py:137-138 | the file list holds exactly the entry names that are regular files |
| `Listing.SubdirNames` | ansible/roles/webapp/files/deploy/app.py:139-140 | the subdirectory list holds exactly the entry names that are directories |
| `Listing.KindNamesDistinct` | ansible/roles/webapp/files/deploy/app.py:137-140 | when the listed names are distinct, as `os.listdir`'s are, each file and each subdirectory is named once |
| `Listing.DistinctSize` | ansible/roles/webapp/files/deploy/app.py:137-149 | a list without repeats is as long as the set of its names |
| `Listing.FilePageCount` | ansible/roles/webapp/files/deploy/app.py:137-149 | for distinct listed names, the file list has one name per regular file, and the page count is the least number of pages of ten that hold them |
| `Listing.SliceBound` | ansible/roles/webapp/files/deploy/app.py:143 | a Python slice bound is clamped into the sequence |
| `Listing.PySlice` | ansible/roles/webapp/files/deploy/app.py:143 | a Python slice holds the elements between the clamped bounds, in order, and is empty when the clamped stop is not past the clamped start; within range it is the plain subsequence |
| `Listing.PageOf` | ansible/roles/webapp/files/deploy/app.py:142-143 | for page at least 1 the page is `files[(page-1)*10 .. page*10]` cut at the end of the list; page 0 is empty; never more than 10 files |
| `Listing.TotalPages` | ansible/roles/webapp/files/deploy/app.py:149 | the page count is the least number of pages of ten that hold all files (0 files: 0 pages, 10: 1, 25: 3) |
| `Listing.ShowDirectory` | ansible/roles/webapp/files/deploy/app.py:137-150 | the page shows the requested page of the sorted file names, at most 10 sorted names, all regular files of the directory; subdirectories are all of them, sorted, on page 1 and none on any other page; the page count is `TotalPages` of the number of files, and the directory name and page number are passed through |
| `Listing.PageSorted` | ansible/roles/webapp/files/deploy/app.py:143 | a page of a sorted list is sorted |
| `Listing.PageWithin` | ansible/roles/webapp/files/deploy/app.py:143 | every name on a page is in the file list |
| `Listing.PagesArePrefix` | ansible/roles/webapp/files/deploy/app.py:142-143 | pages 1 to k, read in order, are the first 10k files |
| `Listing.PagesCoverAllFiles` | ansible/roles/webapp/files/deploy/app.py:142-149 | pages 1 to `total_pages`, read in order, give back the whole sorted file list |
| `Listing.PagesPastTheEnd` | ansible/roles/webapp/files/deploy/app.py:142-149 | a page after the last is empty, pages before the last are full, and the last is not empty |
| `Listing.FileOnItsPage` | ansible/roles/webapp/files/deploy/app.py:142-143 | file i is shown on page i/10 + 1 at position i mod 10 |
| `Listing.FilesIgnoreSubdirs` | ansible/roles/webapp/files/deploy/app.py:137-149 | the shown files and the page count depend only on the files, not on the subdirectories |
| `Listing.TwentyFiveFiles` | ansible/roles/webapp/files/deploy/app.py:142-149 | 25 files make 3 pages: files 0-9, 10-19 and 20-24, then empty pages |
| `Listing.NoFiles` | ansible/roles/webapp/files/deploy/app.py:137-149 | a directory without files has 0 pages and an empty page 1 |
| `App.IndexWhenLoggedIn` | ansible/roles/webapp/files/deploy/app.py:78-83 | when logged in, `index` answers the same whatever the password check would say, does not change the session, and never answers with the login page or a redirect (a missing folder gives a server error) |
| `App.IndexLandingPages` | ansible/roles/webapp/files/deploy/app.py:78-83 | when logged in, `index` fails exactly when the media folder, or the downloads folder when asked for, cannot be listed; otherwise it shows the media subdirectories, or with `downloads` every entry name of the downloads folder, in listing order |
| `App.IndexWhenAnonymous` | ansible/roles/webapp/files/deploy/app.py:85-93 | when anonymous, the flag is set exactly when a validated form passes the check, with a redirect to the index; a failed check keeps the flag and appends "Login Failed."; a form that does not validate changes nothing |
| `App.LogoutClears` | ansible/roles/webapp/files/deploy/app.py:96-100 | logging out twice is logging out once, and logging out an anonymous session changes nothing |
| `App.GuardDecides` | ansible/roles/webapp/files/deploy/app.py:192-209 | when anonymous, the wrapper appends the log-in notice and redirects, whatever the wrapped handler would answer; when logged in, it answers what the handler answers and leaves the session alone |
| `App.LoggedInExactly` | ansible/roles/webapp/files/deploy/app.py:78-100 | after any sequence of requests, the session is logged in exactly when it already was or some request passed the password check, with no logout after that |
| `App.AnonymousWithoutPassword` | ansible/roles/webapp/files/deploy/app.py:85-90 | a new session stays anonymous unless some request passes the password check |
| `App.FlashesOnlyGrow` | ansible/roles/webapp/files/deploy/app.py:85-207 | the flash queue only grows, and only by "Login Failed." or the log-in notice |
| `App.StaticPath` | ansible/roles/webapp/files/deploy/app.py:25-35 | a static path ends with its last segment, and starts with the static folder when no segment is absolute |
| `App.IndexStep` | ansible/roles/webapp/files/deploy/app.py:71-93 | after `index` the visitor is logged in exactly when already logged in or a validated form passed the check; the answer is a redirect exactly when this request logged them in; at most "Login Failed." is appended to the flashes |
| `App.LogoutStep` | ansible/roles/webapp/files/deploy/app.py:96-100 | logout clears the flag, keeps the flashes and redirects to the index |
| `App.GuardStep` | ansible/roles/webapp/files/deploy/app.py:192-209 | the wrapper never changes the flag and appends at most the log-in notice to the flashes |
| `App.Session.constructor` | ansible/roles/webapp/files/deploy/app.py:78 | a fresh session has no `logged_in` flag and no flashes |
| `App.Session.Index` | ansible/roles/webapp/files/deploy/app.py:71-93 | updating the session in place gives the state and response of `IndexStep` |
| `App.Session.Logout` | ansible/roles/webapp/files/deploy/app.py:96-100 | updating the session in place gives the state and response of `LogoutStep` |
| `App.Session.LoginRequired` | ansible/roles/webapp/files/deploy/app.py:192-209 | updating the session in place gives the state and response of `GuardStep` |
| `App.ShowPhoto` | ansible/roles/webapp/files/deploy/app.py:103-119 | the photo route answers only "not found" or a file to send |
| `App.PhotoFound` | ansible/roles/webapp/files/deploy/app.py:115-119 | the photo route answers 404 exactly when the joined path does not exist; otherwise it sends inline the path's final component from the path's directory name, and that final component is the decoded file name whenever the name has no slash |
| `App.PhotoPathNotContained` | ansible/roles/webapp/files/deploy/app.py:115-118 | a decoded file name that starts with `/` replaces the static and media folders in front of it and is looked up as written, wherever it points |
| `App.DownloadFile` | ansible/roles/webapp/files/deploy/app.py:153-167 | the download route answers only "not found" or a file to send |
| `App.DownloadFound` | ansible/roles/webapp/files/deploy/app.py:164-167 | the download route answers 404 exactly when the file is missing, and otherwise sends that name from the downloads folder as an attachment |
| `App.ShowDirectoryRoute` | ansible/roles/webapp/files/deploy/app.py:122-150 | the directory route answers a listing page or fails |
| `App.DirectoryListed` | ansible/roles/webapp/files/deploy/app.py:135-150 | the directory route fails exactly when the decoded directory cannot be listed, and otherwise shows the requested page of its sorted files with the page count of its files |
| `Settings.Unescape` | config.py:14-15 | replacing `$$` by `$` never lengthens the string and never empties a non-empty one |
| `Settings.Load` | config.py:8-15 | `PASSWORD_HASH` is `None` exactly when `PSHR` is unset or empty; otherwise it is `PSHR` with every `$$` replaced by `$`, a non-empty string no longer than `PSHR` |
| `Settings.LoadKeys` | config.py:9-11 | `SECRET_KEY` and `WTF_CSRF_SECRET_KEY` are `FKEY` and `WTFKEY` when set, even empty, and the fixed local values otherwise |
| `Settings.UnescapeWithoutDoubleDollar` | config.py:14 | a string without `$$` comes back unchanged |
| `Settings.UnescapeLength` | config.py:14 | the result is shorter by exactly the number of non-overlapping `$$` found left to right |
| `Settings.CountDoubleDollar` | config.py:14 | the number of non-overlapping `$$` is at most half the length, and zero exactly when `$$` does not occur |
| `Settings.HasDoubleDollarTail` | config.py:14 | a string that does not start with `$$` contains `$$` exactly when its tail does |
| `Settings.NonDollarsAppend` | config.py:14 | dropping the dollars of a concatenation drops them from each part |
| `Settings.UnescapeKeepsOtherCharacters` | config.py:14 | characters other than `$` are kept, in their order |
| `Settings.UnescapeRun` | config.py:14 | a maximal run of m dollars becomes ceil(m/2) dollars, and the rest is unescaped on its own |
| `Settings.UnescapeEscape` | config.py:12-15 | unescaping a string whose every `$` was doubled gives back the string |
| `Settings.UnescapeNotIdempotent` | config.py:14 | `$$$` becomes `$$`, `$$$$` becomes `$$`, and unescaping again gives `$`, so the operation is not idempotent |
| `Settings.UnescapePair` | config.py:14 | a leading `$$` becomes one `$` |
| `Settings.UnescapeAppend` | config.py:14 | unescaping works piecewise across a boundary that does not split a run of dollars |
| `Settings.UnescapePairPrefix` | config.py:14 | a string starting with `$$` unescapes to `$` followed by the unescaped rest |
| `Settings.UnescapeSinglePrefix` | config.py:14 | a string not starting with `$$` keeps its first character |
| `Settings.UnescapeBcryptLayout` | config.py:12-15 | a bcrypt hash stored as `$id$$cost$$rest`, as in `$2b$$10$$abc`, becomes `$id$cost$rest` |
| `Settings.UnescapeBcryptExample` | config.py:12-15 | `$2b$$10$$abc` is read back as `$2b$10$abc` |
| `Settings.UnescapeFieldThen` | config.py:14 | a separator of one or two dollars and then a dollar-free field unescape to one dollar and the field |
| `Settings.UnescapeSeparator` | config.py:14 | one dollar and then a dollar-free field are kept as they are |
| `Settings.UnescapeDoubledSeparator` | config.py:14 | two dollars and then a dollar-free field become one dollar and the field |
| `Settings.LoadBcryptHash` | config.py:12-15 | `PSHR` holding `$id$$cost$$rest` gives `PASSWORD_HASH` `$id$cost$rest` |
| `Settings.LoadEscapedHash` | config.py:12-15 | `PSHR` holding a non-empty hash with every `$` doubled gives back that hash |

## Left out

- Listing.SubdirNames: the order in which the index page lists subdirectories (the order `os.listdir` returns) is not stated; its contract gives membership, and `KindNamesDistinct` gives that each is listed once.
- Flask plumbing is not modelled. This covers routing, `render_template`, the favicon route, the 429 handler, `get_forwarded_address`, and the signing and expiry of the session cookie. The handlers' answers are `Response` values.
- `bcrypt.check_password_hash` is cryptography inside a foreign library, so it is an abstract function argument. Nothing is said about how it treats a `None` hash, since that is decided inside `flask_bcrypt`.
- App.IndexStep: the password check is a total function, so the model cannot produce the server error that the real `check_password_hash` raises on a missing or malformed hash; that request answers 500 and queues no "Login Failed." message.
- `validate_on_submit` (request method, CSRF token and the `DataRequired` check) is framework code, so it is the input flag `LoginForm.validated`.
- `unquote` is an abstract argument. Percent-decoding followed by UTF-8 decoding with replacement is library code. Only its use before joining is modelled.
- `send_from_directory` is a Flask call, so only its arguments are recorded in `SendFromDirectory`. Its own checks are not modelled: `safe_join`, and its 404 for paths that are not regular files. Neither is its streaming.
- The filesystem is the abstract `FileSystem` value. `os.listdir` on a missing directory becomes `ServerError`. Other operating-system errors are not modelled.
- `MediaFiles.Lower`: only `A`-`Z` are lowered, because `str.lower` on other characters never yields one of the ASCII letters of the five media extensions, so membership is unaffected.
- The flash queue only grows in the model. Templates consume it through `get_flashed_messages`, which is rendering code.
- `App.GuardStep`: the wrapped handler is a pure function from no arguments to a response. A handler that changes the session itself is not modelled.
- `App.Session.constructor`: a session cookie that was tampered with or expired reads as a new session; cookie validation is framework code.
- Page numbers are natural numbers, because Flask's `int` converter admits no negative numbers. Page 0 is modelled with Python's slice rules.
- `ansible/generate_secrets.py` and `scripts/generate_secrets.py` are left out: they only wrap `os.urandom`, base64 and bcrypt and check the argument count.
- `test_auth.py` is left out: it is a diagnostic script.
- The two other `config.py` variants under `ansible/roles/webapp/files/` are left out: they are plain environment lookups.
- `Settings` models the top-level `config.py`. The deployed `app.py` imports the `config.py` next to it, which passes `PSHR` on without unescaping; `IndexStep` takes the hash as a free input, so either reading fits it.
- The cookie-policy constants in `config.py` are left out: they are fixed values.
