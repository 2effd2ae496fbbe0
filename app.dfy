/**
 * The request logic of the web application: the session's login state and
 * flash messages as changed by the index page, logout and the
 * `login_required` guard, and the not-found decisions of the photo,
 * directory and download routes. The filesystem, bcrypt and percent-decoding
 * are inputs.
 */
module App {
  import opened Wrappers
  import PosixPath
  import Listing

  /** The static folder configured for the Flask application. */
  const StaticFolder: string := "/mnt/web/photoshare/static"

  /**
   * `join_static_path(*segments)`: the path ends with the last segment, and
   * starts with the static folder when no segment is absolute; nothing
   * checks that it stays under that folder.
   */
  function StaticPath(segments: seq<string>): (r: string)
    ensures segments != [] ==> PosixPath.EndsWithSegment(r, segments[|segments| - 1])
    ensures PosixPath.NoAbsolute(segments) ==> |StaticFolder| <= |r| && r[..|StaticFolder|] == StaticFolder
  {
    PosixPath.Join(StaticFolder, segments)
  }

  /**
   * The filesystem as the handlers observe it: what `os.listdir` returns for
   * each directory that exists, and the paths for which `os.path.exists` holds.
   */
  datatype FileSystem = FileSystem(listings: map<string, seq<Listing.Entry>>, paths: set<string>)

  /** A message queued by `flash(message, category)`. */
  datatype Flash = Flash(message: string, category: string)

  const LoginFailed: Flash := Flash("Login Failed.", "error")
  const LoginNeeded: Flash := Flash("You need to log in to access this page.", "error")

  /** What a handler answers. */
  datatype Response =
    | LoginPage
    | IndexPage(directories: seq<string>)
    | DownloadsPage(files: seq<string>)
    | DirectoryPage(view: Listing.DirectoryView)
    | RedirectToIndex
      /** `send_from_directory(directory, name, as_attachment=...)` */
    | SendFromDirectory(directory: string, name: string, asAttachment: bool)
      /** `abort(404, description=...)` */
    | NotFound(description: string)
      /** an exception escaping the handler, such as `os.listdir` on a missing directory */
    | ServerError

  /** The session cookie's content: the `logged_in` flag (absent reads as false) and the flash queue. */
  datatype SessionState = SessionState(loggedIn: bool, flashes: seq<Flash>)

  const NewSession: SessionState := SessionState(false, [])

  /** The login form of a request: whether `validate_on_submit()` held, and the password typed. */
  datatype LoginForm = LoginForm(validated: bool, password: string)

  /** A request to `/`: whether `downloads` is among the query arguments, and the form. */
  datatype IndexRequest = IndexRequest(downloadsArg: bool, form: LoginForm)

  /** `bcrypt.check_password_hash(PASSWORD_HASH, password)`, left abstract. */
  type PasswordCheck = (Option<string>, string) -> bool

  /** The session after a request, and the response. */
  datatype Outcome = Outcome(session: SessionState, response: Response)

  function Names(entries: seq<Listing.Entry>): (r: seq<string>)
    ensures |r| == |entries| && forall i :: 0 <= i < |r| ==> r[i] == entries[i].name
  {
    seq(|entries|, i requires 0 <= i < |entries| => entries[i].name)
  }

  // ---------------------------------------------------------------------
  // Session transitions

  /**
   * `index()`: the landing page when logged in, otherwise the login form and
   * its submission. Afterwards the visitor is logged in exactly when they
   * were already or submitted a valid form whose password passes the check;
   * the answer is a redirect exactly when this request logged them in; and
   * at most "Login Failed." is added to the flashes.
   */
  function IndexStep(s: SessionState, req: IndexRequest, hash: Option<string>, check: PasswordCheck,
                     fs: FileSystem): (o: Outcome)
    ensures o.session.loggedIn <==> s.loggedIn || (req.form.validated && check(hash, req.form.password))
    ensures o.response == RedirectToIndex <==> !s.loggedIn && o.session.loggedIn
    ensures o.session.flashes == s.flashes || o.session.flashes == s.flashes + [LoginFailed]
  {
    if s.loggedIn then
      var media := StaticPath(["media"]);
      if media !in fs.listings then Outcome(s, ServerError)
      else if req.downloadsArg then
        var downloads := StaticPath(["downloads"]);
        if downloads !in fs.listings then Outcome(s, ServerError)
        else Outcome(s, DownloadsPage(Names(fs.listings[downloads])))
      else Outcome(s, IndexPage(Listing.SubdirNames(fs.listings[media])))
    else if req.form.validated then
      if check(hash, req.form.password) then Outcome(s.(loggedIn := true), RedirectToIndex)
      else Outcome(s.(flashes := s.flashes + [LoginFailed]), LoginPage)
    else Outcome(s, LoginPage)
  }

  /** `logout()`: `session.pop('logged_in', None)`, then a redirect to the index page. */
  function LogoutStep(s: SessionState): (o: Outcome)
    ensures !o.session.loggedIn && o.session.flashes == s.flashes
    ensures o.response == RedirectToIndex
  {
    Outcome(s.(loggedIn := false), RedirectToIndex)
  }

  /** The wrapper built by `login_required(f)`, applied to a request whose handler is `f`. */
  function GuardStep(s: SessionState, f: () -> Response): (o: Outcome)
    ensures o.session.loggedIn == s.loggedIn
    ensures o.session.flashes == s.flashes || o.session.flashes == s.flashes + [LoginNeeded]
  {
    if !s.loggedIn then Outcome(s.(flashes := s.flashes + [LoginNeeded]), RedirectToIndex)
    else Outcome(s, f())
  }

  /** A logged-in visitor never reaches the password check and never changes the session. */
  lemma IndexWhenLoggedIn(s: SessionState, req: IndexRequest, hash: Option<string>,
                          c1: PasswordCheck, c2: PasswordCheck, fs: FileSystem)
    requires s.loggedIn
    ensures IndexStep(s, req, hash, c1, fs) == IndexStep(s, req, hash, c2, fs)
    ensures IndexStep(s, req, hash, c1, fs).session == s
    ensures IndexStep(s, req, hash, c1, fs).response !in {LoginPage, RedirectToIndex}
  {
  }

  /**
   * The pages a logged-in visitor gets: the downloads page lists every entry
   * of the downloads folder when `downloads` is asked for, the index page the
   * subdirectories of the media folder otherwise, and a server error when a
   * folder it needs cannot be listed.
   */
  lemma IndexLandingPages(s: SessionState, req: IndexRequest, hash: Option<string>,
                          check: PasswordCheck, fs: FileSystem)
    requires s.loggedIn
    ensures var media, downloads := StaticPath(["media"]), StaticPath(["downloads"]);
      var r := IndexStep(s, req, hash, check, fs).response;
      (r == ServerError <==> media !in fs.listings || (req.downloadsArg && downloads !in fs.listings)) &&
      (media in fs.listings && !req.downloadsArg ==>
         r == IndexPage(Listing.SubdirNames(fs.listings[media]))) &&
      (media in fs.listings && req.downloadsArg && downloads in fs.listings ==>
         r.DownloadsPage? && |r.files| == |fs.listings[downloads]| &&
         forall i :: 0 <= i < |r.files| ==> r.files[i] == fs.listings[downloads][i].name)
  {
  }

  /**
   * An anonymous visitor: a valid submission that passes the check logs in and
   * redirects; one that fails keeps the flag and queues "Login Failed."; a
   * form that does not validate changes nothing.
   */
  lemma IndexWhenAnonymous(s: SessionState, req: IndexRequest, hash: Option<string>,
                           check: PasswordCheck, fs: FileSystem)
    requires !s.loggedIn
    ensures var o := IndexStep(s, req, hash, check, fs);
      (o.session.loggedIn <==> req.form.validated && check(hash, req.form.password)) &&
      (o.session.loggedIn ==> o.session.flashes == s.flashes && o.response == RedirectToIndex) &&
      (req.form.validated && !check(hash, req.form.password) ==>
         o.session == s.(flashes := s.flashes + [LoginFailed]) && o.response == LoginPage) &&
      (!req.form.validated ==> o == Outcome(s, LoginPage))
  {
  }

  /** Logging out twice is logging out once, and logging out an anonymous visitor changes nothing. */
  lemma LogoutClears(s: SessionState)
    ensures LogoutStep(LogoutStep(s).session) == LogoutStep(s)
    ensures !s.loggedIn ==> LogoutStep(s).session == s
  {
  }

  /**
   * Anonymous: the guard queues the notice and redirects, whatever the
   * wrapped handler would have answered. Logged in: it answers exactly what
   * the handler answers and leaves the session alone.
   */
  lemma GuardDecides(s: SessionState, f: () -> Response, g: () -> Response)
    ensures !s.loggedIn ==>
      GuardStep(s, f) == GuardStep(s, g) &&
      GuardStep(s, f) == Outcome(s.(flashes := s.flashes + [LoginNeeded]), RedirectToIndex)
    ensures s.loggedIn ==> GuardStep(s, f) == Outcome(s, f())
  {
  }

  // ---------------------------------------------------------------------
  // Sequences of requests

  /** A request that reaches the session logic. */
  datatype Request =
    | Visit(req: IndexRequest)
    | LogoutRequest
    | Guarded(handler: () -> Response)

  function Apply(s: SessionState, r: Request, hash: Option<string>, check: PasswordCheck,
                 fs: FileSystem): SessionState
  {
    match r
    case Visit(req) => IndexStep(s, req, hash, check, fs).session
    case LogoutRequest => LogoutStep(s).session
    case Guarded(f) => GuardStep(s, f).session
  }

  /** The session after the requests `rs`, one after the other. */
  function Run(s: SessionState, rs: seq<Request>, hash: Option<string>, check: PasswordCheck,
               fs: FileSystem): SessionState
    decreases |rs|
  {
    if rs == [] then s
    else Apply(Run(s, rs[..|rs| - 1], hash, check, fs), rs[|rs| - 1], hash, check, fs)
  }

  /** A visit whose validated form passes the password check. */
  predicate PassesCheck(r: Request, hash: Option<string>, check: PasswordCheck) {
    r.Visit? && r.req.form.validated && check(hash, r.req.form.password)
  }

  predicate NoLogoutFrom(rs: seq<Request>, k: nat) {
    forall j :: k <= j < |rs| ==> !rs[j].LogoutRequest?
  }

  /** Request i passed the password check and no logout followed it. */
  predicate LoginStands(rs: seq<Request>, i: nat, hash: Option<string>, check: PasswordCheck) {
    i < |rs| && PassesCheck(rs[i], hash, check) && NoLogoutFrom(rs, i + 1)
  }

  ghost predicate LoggedInBy(s: SessionState, rs: seq<Request>, hash: Option<string>, check: PasswordCheck) {
    (s.loggedIn && NoLogoutFrom(rs, 0)) || exists i: nat :: LoginStands(rs, i, hash, check)
  }

  /**
   * After any sequence of requests the session is logged in exactly when it
   * was already logged in or some request passed the password check, and no
   * logout came after that.
   */
  lemma {:induction false} LoggedInExactly(s: SessionState, rs: seq<Request>, hash: Option<string>,
                                            check: PasswordCheck, fs: FileSystem)
    ensures Run(s, rs, hash, check, fs).loggedIn <==> LoggedInBy(s, rs, hash, check)
    decreases |rs|
  {
    if rs != [] {
      var init, last := rs[..|rs| - 1], rs[|rs| - 1];
      LoggedInExactly(s, init, hash, check, fs);
      var before := Run(s, init, hash, check, fs);
      if last.LogoutRequest? {
        assert !NoLogoutFrom(rs, 0);
        forall i: nat ensures !LoginStands(rs, i, hash, check) {
          if i < |rs| - 1 {
            assert !NoLogoutFrom(rs, i + 1);
          }
        }
      } else if PassesCheck(last, hash, check) {
        assert LoginStands(rs, |rs| - 1, hash, check);
      } else {
        assert NoLogoutFrom(rs, 0) <==> NoLogoutFrom(init, 0);
        forall i: nat ensures LoginStands(rs, i, hash, check) <==> LoginStands(init, i, hash, check) {
          if i < |init| {
            assert rs[i] == init[i];
            assert NoLogoutFrom(rs, i + 1) <==> NoLogoutFrom(init, i + 1);
          }
        }
      }
    }
  }

  /** A new session that never passes the password check stays anonymous. */
  lemma AnonymousWithoutPassword(rs: seq<Request>, hash: Option<string>, check: PasswordCheck, fs: FileSystem)
    requires forall i :: 0 <= i < |rs| ==> !PassesCheck(rs[i], hash, check)
    ensures !Run(NewSession, rs, hash, check, fs).loggedIn
  {
    LoggedInExactly(NewSession, rs, hash, check, fs);
  }

  /** The flash queue only grows, and only by the two notices. */
  lemma {:induction false} FlashesOnlyGrow(s: SessionState, rs: seq<Request>, hash: Option<string>,
                                           check: PasswordCheck, fs: FileSystem)
    ensures var t := Run(s, rs, hash, check, fs);
      |s.flashes| <= |t.flashes| && t.flashes[..|s.flashes|] == s.flashes &&
      forall k :: |s.flashes| <= k < |t.flashes| ==> t.flashes[k] == LoginFailed || t.flashes[k] == LoginNeeded
    decreases |rs|
  {
    if rs != [] {
      FlashesOnlyGrow(s, rs[..|rs| - 1], hash, check, fs);
      var before := Run(s, rs[..|rs| - 1], hash, check, fs);
      var after := Run(s, rs, hash, check, fs);
      assert after.flashes == before.flashes ||
             after.flashes == before.flashes + [LoginFailed] ||
             after.flashes == before.flashes + [LoginNeeded];
    }
  }

  // ---------------------------------------------------------------------
  // The session object, changed in place by the handlers

  class Session {
    var loggedIn: bool
    var flashes: seq<Flash>

    function State(): SessionState
      reads this
    {
      SessionState(loggedIn, flashes)
    }

    /** A fresh cookie: no `logged_in` key and no flashes. */
    constructor ()
      ensures State() == NewSession
    {
      loggedIn := false;
      flashes := [];
    }

    method Index(req: IndexRequest, hash: Option<string>, check: PasswordCheck, fs: FileSystem)
      returns (resp: Response)
      modifies this
      ensures Outcome(State(), resp) == IndexStep(old(State()), req, hash, check, fs)
    {
      if loggedIn {
        var media := StaticPath(["media"]);
        if media !in fs.listings {
          return ServerError;
        }
        var directories := Listing.SubdirNames(fs.listings[media]);
        if req.downloadsArg {
          var downloads := StaticPath(["downloads"]);
          if downloads !in fs.listings {
            return ServerError;
          }
          return DownloadsPage(Names(fs.listings[downloads]));
        }
        return IndexPage(directories);
      }
      if req.form.validated {
        if check(hash, req.form.password) {
          loggedIn := true;
          return RedirectToIndex;
        }
        flashes := flashes + [LoginFailed];
      }
      resp := LoginPage;
    }

    method Logout() returns (resp: Response)
      modifies this
      ensures Outcome(State(), resp) == LogoutStep(old(State()))
    {
      loggedIn := false;
      resp := RedirectToIndex;
    }

    method LoginRequired(f: () -> Response) returns (resp: Response)
      modifies this
      ensures Outcome(State(), resp) == GuardStep(old(State()), f)
    {
      if !loggedIn {
        flashes := flashes + [LoginNeeded];
        return RedirectToIndex;
      }
      resp := f();
    }
  }

  // ---------------------------------------------------------------------
  // Routes that serve files or listings

  /** `show_photo(directory, filename)`. */
  function ShowPhoto(fs: FileSystem, unquote: string -> string, directory: string, filename: string): (r: Response)
    ensures r.NotFound? || r.SendFromDirectory?
  {
    var path := StaticPath(["media", unquote(directory), unquote(filename)]);
    if path !in fs.paths then NotFound("Photo not found.")
    else SendFromDirectory(PosixPath.Dirname(path), PosixPath.Basename(path), false)
  }

  /** `show_directory(directory, page)`. */
  function ShowDirectoryRoute(fs: FileSystem, unquote: string -> string, directory: string, page: nat): (r: Response)
    ensures r.ServerError? || r.DirectoryPage?
  {
    var d := unquote(directory);
    var local := StaticPath(["media", d]);
    if local !in fs.listings then ServerError
    else DirectoryPage(Listing.ShowDirectory(d, fs.listings[local], page))
  }

  /** `download_file(filename)`: the name is used as given, without decoding. */
  function DownloadFile(fs: FileSystem, filename: string): (r: Response)
    ensures r.NotFound? || r.SendFromDirectory?
  {
    var path := StaticPath(["downloads", filename]);
    if path in fs.paths then SendFromDirectory(StaticPath(["downloads"]), filename, true)
    else NotFound("File not found.")
  }

  /**
   * The photo route answers 404 exactly when the joined path does not exist;
   * otherwise it sends, inline, the final component of that path from the
   * directory part of it; the final component is the decoded file name
   * whenever that name has no slash.
   */
  lemma PhotoFound(fs: FileSystem, unquote: string -> string, directory: string, filename: string)
    ensures var path := StaticPath(["media", unquote(directory), unquote(filename)]);
      var r := ShowPhoto(fs, unquote, directory, filename);
      (r == NotFound("Photo not found.") <==> path !in fs.paths) &&
      (r.SendFromDirectory? ==> !r.asAttachment && r.directory == PosixPath.Dirname(path) &&
                                r.name == PosixPath.Basename(path)) &&
      (r.SendFromDirectory? && '/' !in unquote(filename) ==> r.name == unquote(filename))
  {
    var f := unquote(filename);
    var parts := ["media", unquote(directory), f];
    if '/' !in f {
      PosixPath.JoinBasename(StaticFolder, parts);
    }
  }

  /**
   * Nothing keeps the photo path inside the media folder: a decoded file name
   * that starts with a slash replaces everything before it.
   */
  lemma PhotoPathNotContained(fs: FileSystem, unquote: string -> string, directory: string, filename: string)
    requires PosixPath.StartsWithSlash(unquote(filename))
    ensures StaticPath(["media", unquote(directory), unquote(filename)]) == unquote(filename)
    ensures ShowPhoto(fs, unquote, directory, filename).NotFound? <==> unquote(filename) !in fs.paths
  {
    var parts := ["media", unquote(directory), unquote(filename)];
    PosixPath.JoinAbsoluteResets(StaticFolder, parts, 2);
    assert parts[3..] == [];
  }

  /** The download route answers 404 exactly when the file is missing, and otherwise sends it as an attachment. */
  lemma DownloadFound(fs: FileSystem, filename: string)
    ensures var r := DownloadFile(fs, filename);
      (r == NotFound("File not found.") <==> StaticPath(["downloads", filename]) !in fs.paths) &&
      (r.SendFromDirectory? ==> r.asAttachment && r.name == filename &&
                                r.directory == StaticPath(["downloads"]))
  {
  }

  /**
   * The directory route fails exactly when the directory cannot be listed;
   * otherwise it shows the requested page of that listing.
   */
  lemma DirectoryListed(fs: FileSystem, unquote: string -> string, directory: string, page: nat)
    ensures var local := StaticPath(["media", unquote(directory)]);
      var r := ShowDirectoryRoute(fs, unquote, directory, page);
      (r.ServerError? <==> local !in fs.listings) &&
      (r.DirectoryPage? ==>
         r.view.files == Listing.PageOf(Listing.Sort(Listing.FileNames(fs.listings[local])), page) &&
         r.view.totalPages == Listing.TotalPages(|Listing.FileNames(fs.listings[local])|) &&
         r.view.currentPage == page && r.view.directory == unquote(directory))
  {
  }
}
