/**
 * The `Rurl` client object: its error pair, current URL, cookie directory,
 * persistent curl options, result and callbacks, and the steps of `exec`
 * that read and change them. The curl handle is modelled by the options it
 * has accumulated (closing a handle does not reset it, so options set by
 * one call stay for the next); a transfer is a parameter that, given those
 * options and an attempt number, says what curl reports.
 */
module Client {
  import opened Wrappers
  import opened PhpStrings
  import opened Cookies
  import opened Jars
  import opened CookieStore
  import opened UrlParams
  import opened Retry

  /** The curl options the client sets itself; every other option is `OtherOption(code)`. */
  datatype CurlOption =
    | UrlOption | TimeoutOption | ReturnTransferOption | SslVerifyPeerOption
    | CookieOption | HeaderHookOption | OtherOption(code: int)

  /** An option's value; `HeaderHook` is the client's own `headerFunction`. */
  datatype OptionValue = Flag(on: bool) | Number(n: int) | Text(text: string) | HeaderHook | OtherValue(id: int)

  type Options = map<CurlOption, OptionValue>

  /** The callback `exec` runs at the end. */
  datatype Callback = OnError | OnFinished

  /** The options after `autoSendCookie`: the valid records' `kv`s joined by "; ", if there are any. */
  function SendCookieOptions(opts: Options, jar: Jar, requestPath: string, now: int,
                             strtotime: string -> Option<int>): (r: Options)
    ensures r == opts || (CookieOption in r && r == opts[CookieOption := r[CookieOption]])
    ensures CookieOption in opts ==> CookieOption in r
  {
    var kvs := SentKvs(jar.cookies, jar.names, requestPath, now, strtotime);
    if kvs == [] then opts else opts[CookieOption := Text(Join(kvs, "; "))]
  }

  /**
   * The `Cookie` option is set exactly when some stored record is valid
   * for the request, and then lists every valid record; when none is, the
   * options are left as they were, so a `Cookie` value from an earlier
   * call is sent again. No other option changes.
   */
  lemma CookieOptionFromValidRecords(opts: Options, jar: Jar, requestPath: string, now: int,
                                     strtotime: string -> Option<int>)
    requires ValidJar(jar)
    ensures var r := SendCookieOptions(opts, jar, requestPath, now, strtotime);
            var kvs := SentKvs(jar.cookies, jar.names, requestPath, now, strtotime);
            && (forall k :: k != CookieOption ==> (k in r <==> k in opts) && (k in r ==> r[k] == opts[k]))
            && ((exists n :: n in jar.cookies && CookieIsValid(jar.cookies[n], requestPath, now, strtotime))
                ==> CookieOption in r && r[CookieOption] == Text(Join(kvs, "; ")))
            && ((forall n :: n in jar.cookies ==> !CookieIsValid(jar.cookies[n], requestPath, now, strtotime))
                ==> r == opts)
            && (forall kv :: kv in kvs <==> SentFrom(jar.cookies, jar.names, kv, requestPath, now, strtotime))
  {
    var kvs := SentKvs(jar.cookies, jar.names, requestPath, now, strtotime);
    forall kv
      ensures kv in kvs <==> SentFrom(jar.cookies, jar.names, kv, requestPath, now, strtotime)
    {
      SentKvsMembers(jar.cookies, jar.names, kv, requestPath, now, strtotime);
    }
    if n :| n in jar.cookies && CookieIsValid(jar.cookies[n], requestPath, now, strtotime) {
      var i :| 0 <= i < |jar.names| && jar.names[i] == n;
      assert SentFrom(jar.cookies, jar.names, KvOf(jar.cookies[n]), requestPath, now, strtotime);
      assert kvs != [];
    }
    if kvs != [] {
      assert SentFrom(jar.cookies, jar.names, kvs[0], requestPath, now, strtotime);
    }
  }

  /** The loop of `autoSendCookie`: the `kv` of each valid record, in the jar's order. */
  method ValidKvs(jar: Jar, requestPath: string, now: int, strtotime: string -> Option<int>)
    returns (cookieList: seq<string>)
    requires ValidJar(jar)
    ensures cookieList == SentKvs(jar.cookies, jar.names, requestPath, now, strtotime)
  {
    cookieList := [];
    for i := 0 to |jar.names|
      invariant cookieList == SentKvs(jar.cookies, jar.names[..i], requestPath, now, strtotime)
    {
      SentKvsStep(jar.cookies, jar.names, i, requestPath, now, strtotime);
      var info := jar.cookies[jar.names[i]];
      if CookieIsValid(info, requestPath, now, strtotime) {
        cookieList := cookieList + [KvOf(info)];
      }
    }
    assert jar.names[..|jar.names|] == jar.names;
  }

  /** The options after `cacheCookie`: the header hook is installed when a cookie directory is set. */
  function CacheCookieOptions(opts: Options, cookieDir: string): Options {
    if PhpEmpty(cookieDir) then opts else opts[HeaderHookOption := HeaderHook]
  }

  /** The client's own hook is what curl will call for each response header line. */
  predicate Hooked(h: Options) {
    HeaderHookOption in h && h[HeaderHookOption] == HeaderHook
  }

  /** The options `exec` sets itself, each overriding what came before. */
  predicate BuiltIn(k: CurlOption) {
    k == UrlOption || k == TimeoutOption || k == ReturnTransferOption
  }

  /**
   * The handle's options after `exec` has applied, in order, the persistent
   * options, its own URL, timeout and return-transfer settings, the
   * per-call options (when there are any) and, for https, peer verification off.
   */
  function Applied(handle: Options, persistent: Options, url: string, timeout: int,
                   perCall: Options, https: bool): (r: Options)
    ensures UrlOption in r && TimeoutOption in r && ReturnTransferOption in r
    ensures https ==> SslVerifyPeerOption in r && r[SslVerifyPeerOption] == Flag(false)
  {
    var withPersistent := handle + persistent;
    var withBuiltIns := withPersistent
      + map[UrlOption := Text(url), TimeoutOption := Number(timeout), ReturnTransferOption := Flag(true)];
    var withPerCall := if perCall != map[] then withBuiltIns + perCall else withBuiltIns;
    if https then withPerCall[SslVerifyPeerOption := Flag(false)] else withPerCall
  }

  /**
   * Which setting wins: https turns peer verification off whatever was
   * asked; per-call options beat the built-in ones; built-in ones beat the
   * persistent ones; and options from earlier calls stay unless overridden.
   */
  lemma AppliedPrecedence(handle: Options, persistent: Options, url: string, timeout: int,
                          perCall: Options, https: bool)
    ensures var h := Applied(handle, persistent, url, timeout, perCall, https);
            && (https ==> h[SslVerifyPeerOption] == Flag(false))
            && (forall k :: k in h <==> (k in handle || k in persistent || k in perCall || BuiltIn(k)
                                         || (https && k == SslVerifyPeerOption)))
            && (forall k :: k in perCall && !(https && k == SslVerifyPeerOption) ==> h[k] == perCall[k])
            && (UrlOption !in perCall ==> h[UrlOption] == Text(url))
            && (TimeoutOption !in perCall ==> h[TimeoutOption] == Number(timeout))
            && (ReturnTransferOption !in perCall ==> h[ReturnTransferOption] == Flag(true))
            && (forall k :: k in persistent && k !in perCall && !BuiltIn(k) && !(https && k == SslVerifyPeerOption)
                  ==> h[k] == persistent[k])
            && (forall k :: (k in handle && k !in persistent && k !in perCall && !BuiltIn(k)
                             && !(https && k == SslVerifyPeerOption)) ==> h[k] == handle[k])
  {
  }

  /** With a cookie directory set, the hook is in place unless the call passes its own header function. */
  lemma HookInstalled(handle: Options, persistent: Options, cookieDir: string, url: string, timeout: int,
                      perCall: Options, https: bool)
    requires !PhpEmpty(cookieDir) && HeaderHookOption !in perCall
    ensures Hooked(Applied(handle, CacheCookieOptions(persistent, cookieDir), url, timeout, perCall, https))
  {
  }

  /** Without a cookie directory, and without a hook from earlier, the headers are not looked at. */
  lemma NoCookieDirNoHook(handle: Options, persistent: Options, cookieDir: string, url: string, timeout: int,
                          perCall: Options, https: bool)
    requires PhpEmpty(cookieDir)
    requires HeaderHookOption !in handle && HeaderHookOption !in persistent && HeaderHookOption !in perCall
    ensures !Hooked(Applied(handle, CacheCookieOptions(persistent, cookieDir), url, timeout, perCall, https))
  {
  }

  /** The cache after the header hook has seen the headers of attempts 1 to `n`, in order. */
  function AfterAttempts(s: Store, file: string, requestPath: string, attempt: nat -> Response, n: nat,
                         allows: string -> bool): Store
    decreases n
  {
    if n == 0 then s
    else AfterHeaders(AfterAttempts(s, file, requestPath, attempt, n - 1, allows), file, requestPath,
                      attempt(n).headers, allows)
  }

  /** The header hook keeps the disk well-formed over any number of attempts. */
  lemma {:induction false} AfterAttemptsKeepsValid(s: Store, file: string, requestPath: string,
                                                   attempt: nat -> Response, n: nat, allows: string -> bool)
    requires ValidDisk(s.disk)
    ensures ValidDisk(AfterAttempts(s, file, requestPath, attempt, n, allows).disk)
    decreases n
  {
    if n > 0 {
      AfterAttemptsKeepsValid(s, file, requestPath, attempt, n - 1, allows);
      AfterHeadersKeepsValid(AfterAttempts(s, file, requestPath, attempt, n - 1, allows), file, requestPath,
                             attempt(n).headers, allows);
    }
  }

  class Rurl {
    var errorNum: int
    var errorMessage: string
    var currentUri: string
    var currentUriInfo: UrlInfo
    /** Seconds before curl gives up on a transfer. */
    const timeout: int := 30
    /** How many times a timed-out request is sent again. */
    const maxRequest: int := DefaultMaxRequest
    var cookieDir: string
    var contents: Option<string>
    /** The options `exec` applies on every call. */
    var curlOptions: Options
    /** The options the curl handle holds, accumulated over every call so far. */
    var handleOptions: Options
    var onFinished: bool
    var onError: bool
    /** The cookie cache directories and files. */
    var disk: Disk
    /** `md5` of a string, as a file name. */
    const digest: string -> string
    /** `strtotime`: a Unix time, or `None` for text it cannot read. */
    const strtotime: string -> Option<int>
    /** Whether the process may create the directory or file at a path. */
    const fsAllows: string -> bool

    ghost predicate Valid()
      reads this`disk
    {
      ValidDisk(disk)
    }

    /** What the cookie-cache steps work on. */
    function State(): Store
      reads this`disk, this`errorNum, this`errorMessage
    {
      Store(disk, errorNum, errorMessage)
    }

    /** `$this->currentUriInfo['path']`, with a missing path read as "". */
    function RequestPath(): string
      reads this`currentUriInfo
    {
      currentUriInfo.path.GetOr("")
    }

    /** `getCacheCookieFile` for the current URL (whose parts `exec` has stored). */
    function CacheCookieFile(): string
      reads this`cookieDir, this`currentUriInfo
    {
      CacheFile(cookieDir, currentUriInfo.scheme.GetOr(""), currentUriInfo.host.GetOr(""), digest)
    }

    /** `getStoredCookie`. */
    function GetStoredCookie(): Jar
      reads this`disk, this`cookieDir, this`currentUriInfo
    {
      Load(disk, CacheCookieFile())
    }

    constructor (digest: string -> string, strtotime: string -> Option<int>, fsAllows: string -> bool, disk: Disk)
      requires ValidDisk(disk)
      ensures Valid()
      ensures errorNum == 0 && errorMessage == "" && currentUri == "" && currentUriInfo == NoUrlInfo
      ensures cookieDir == "" && contents == None && curlOptions == map[] && handleOptions == map[]
      ensures !onFinished && !onError
      ensures this.disk == disk && this.digest == digest && this.strtotime == strtotime && this.fsAllows == fsAllows
    {
      errorNum := 0;
      errorMessage := "";
      currentUri := "";
      currentUriInfo := NoUrlInfo;
      cookieDir := "";
      contents := None;
      curlOptions := map[];
      handleOptions := map[];
      onFinished := false;
      onError := false;
      this.disk := disk;
      this.digest := digest;
      this.strtotime := strtotime;
      this.fsAllows := fsAllows;
    }

    method SetErrorInfo(errno: int, msg: string)
      modifies this`errorNum, this`errorMessage
      ensures errorNum == errno && errorMessage == msg
    {
      errorNum := errno;
      errorMessage := msg;
    }

    method SetCookieDir(path: string)
      modifies this`cookieDir
      ensures cookieDir == path
    {
      cookieDir := path;
    }

    method SetOnFinished()
      modifies this`onFinished
      ensures onFinished
    {
      onFinished := true;
    }

    method SetOnError()
      modifies this`onError
      ensures onError
    {
      onError := true;
    }

    /** `createFile`: makes the missing directory, then the file, recording each failure. */
    method CreateFile(filename: string)
      requires Valid()
      modifies this`disk, this`errorNum, this`errorMessage
      ensures Valid()
      ensures State() == CookieStore.CreateFile(old(State()), filename, fsAllows)
    {
      var dirname := Dirname(filename);
      if dirname !in disk.dirs {
        if fsAllows(dirname) {
          disk := disk.(dirs := disk.dirs + {dirname});
        } else {
          SetErrorInfo(ErrorCreateFile, MkdirMessage(dirname));
        }
        if dirname in disk.dirs && fsAllows(filename) {
          if filename !in disk.files {
            disk := disk.(files := disk.files[filename := EmptyJar]);
          }
        } else {
          SetErrorInfo(ErrorCreateFile, TouchMessage(filename));
        }
      }
    }

    /** `storeCookie`: creates the cache file if needed, then overwrites it with the jar. */
    method StoreCookie(cookies: Jar)
      requires Valid() && ValidJar(cookies)
      modifies this`disk, this`errorNum, this`errorMessage
      ensures Valid()
      ensures State() == CookieStore.StoreCookie(old(State()), CacheCookieFile(), cookies, fsAllows)
    {
      var cookieFile := CacheCookieFile();
      if cookieFile !in disk.files {
        CreateFile(cookieFile);
      }
      assert State() == if cookieFile in old(disk.files) then old(State())
                        else CookieStore.CreateFile(old(State()), cookieFile, fsAllows);
      WriteKeepsValid(disk, cookieFile, cookies, fsAllows);
      disk := Write(disk, cookieFile, cookies, fsAllows);
    }

    /**
     * `headerFunction`: curl's callback for one response header line. It
     * reports the whole line as consumed, and files a `Set-Cookie:` line's
     * record in the cache.
     */
    method HeaderFunction(header: string) returns (consumed: nat)
      requires Valid()
      modifies this`disk, this`errorNum, this`errorMessage
      ensures Valid()
      ensures consumed == |header|
      ensures State() == HeaderStep(old(State()), CacheCookieFile(), RequestPath(), header, fsAllows)
    {
      if |header| >= 11 && header[..11] == SetCookiePrefix {
        var cookie := ParseCookieHeader(header, RequestPath());
        var cookies := GetStoredCookie();
        assert ValidJar(cookies);
        cookies := Put(cookies, KeyOf(cookie), cookie);
        StoreCookie(cookies);
      }
      consumed := |header|;
    }

    /** curl calling the header hook on each line of one response, in order. */
    method DeliverHeaders(lines: seq<string>)
      requires Valid()
      modifies this`disk, this`errorNum, this`errorMessage
      ensures Valid()
      ensures State() == AfterHeaders(old(State()), CacheCookieFile(), RequestPath(), lines, fsAllows)
    {
      for i := 0 to |lines|
        invariant Valid()
        invariant AfterHeaders(State(), CacheCookieFile(), RequestPath(), lines[i..], fsAllows)
               == AfterHeaders(old(State()), CacheCookieFile(), RequestPath(), lines, fsAllows)
      {
        var consumed := HeaderFunction(lines[i]);
        assert lines[i..][1..] == lines[i + 1..];
      }
      assert lines[|lines|..] == [];
    }

    /** `cacheCookie`. */
    method CacheCookie()
      modifies this`curlOptions
      ensures curlOptions == CacheCookieOptions(old(curlOptions), cookieDir)
    {
      if !PhpEmpty(cookieDir) {
        curlOptions := curlOptions[HeaderHookOption := HeaderHook];
      }
    }

    /** `autoSendCookie`: puts the valid stored records in the `Cookie` option. */
    method AutoSendCookie(now: int)
      requires Valid()
      modifies this`curlOptions
      ensures curlOptions == SendCookieOptions(old(curlOptions), GetStoredCookie(), RequestPath(), now, strtotime)
    {
      var cookieData := GetStoredCookie();
      assert ValidJar(cookieData);
      if cookieData.names != [] {
        var cookieList := ValidKvs(cookieData, RequestPath(), now, strtotime);
        if cookieList != [] {
          curlOptions := curlOptions[CookieOption := Text(Join(cookieList, "; "))];
        }
      }
    }

    /** The `curl_setopt_array` and `curl_setopt` calls of `exec`, in order. */
    method ApplyOptions(url: string, options: Options, https: bool)
      modifies this`handleOptions
      ensures handleOptions == Applied(old(handleOptions), curlOptions, url, timeout, options, https)
    {
      handleOptions := handleOptions + curlOptions;
      handleOptions := handleOptions
        + map[UrlOption := Text(url), TimeoutOption := Number(timeout), ReturnTransferOption := Flag(true)];
      if options != map[] {
        handleOptions := handleOptions + options;
      }
      if https {
        handleOptions := handleOptions[SslVerifyPeerOption := Flag(false)];
      }
    }

    /**
     * The transfer loop of `exec`: attempt 1, then one more attempt after
     * each timeout until `maxRequest` retries are used up. With the hook
     * installed, each attempt's header lines reach the cookie cache.
     */
    method Transfer(attempt: nat -> Response, hooked: bool) returns (num: nat, response: Response)
      requires Valid()
      modifies this`disk, this`errorNum, this`errorMessage
      ensures Valid()
      ensures num == AttemptCount(attempt, maxRequest) && response == attempt(num)
      ensures hooked ==> State() == AfterAttempts(old(State()), CacheCookieFile(), RequestPath(), attempt, num, fsAllows)
      ensures !hooked ==> State() == old(State())
    {
      response := attempt(1);
      if hooked {
        DeliverHeaders(response.headers);
      }
      num := 1;
      while response.errno == TimeoutErrno
        invariant 1 <= num <= maxRequest + 1
        invariant response == attempt(num)
        invariant AttemptsFrom(attempt, maxRequest, num) == AttemptCount(attempt, maxRequest)
        invariant Valid()
        invariant hooked ==> State() == AfterAttempts(old(State()), CacheCookieFile(), RequestPath(), attempt, num, fsAllows)
        invariant !hooked ==> State() == old(State())
        decreases maxRequest + 1 - num
      {
        if num > maxRequest {
          break;
        }
        num := num + 1;
        response := attempt(num);
        if hooked {
          DeliverHeaders(response.headers);
        }
      }
    }

    /**
     * The first half of `exec`: records the URL and its parts, sends the
     * valid stored cookies, installs the header hook and applies the options.
     */
    method Prepare(url: string, info: UrlInfo, options: Options, now: int)
      requires Valid()
      modifies this`currentUri, this`currentUriInfo, this`curlOptions, this`handleOptions
      ensures currentUri == url && currentUriInfo == info
      ensures curlOptions == CacheCookieOptions(SendCookieOptions(old(curlOptions), Load(disk, CacheCookieFile()),
                                                                  RequestPath(), now, strtotime), cookieDir)
      ensures handleOptions == Applied(old(handleOptions), curlOptions, url, timeout, options, info.scheme == Some("https"))
    {
      currentUri := url;
      currentUriInfo := info;
      AutoSendCookie(now);
      CacheCookie();
      var https := info.scheme.Some? && !PhpEmpty(info.scheme.value) && info.scheme.value == "https";
      assert https == (info.scheme == Some("https"));
      ApplyOptions(url, options, https);
    }

    /**
     * The last half of `exec`: records the final attempt's error pair; on
     * an error runs the error callback, otherwise keeps the body and runs
     * the finished callback (each only when registered).
     */
    method Finish(response: Response) returns (fired: Option<Callback>)
      modifies this`errorNum, this`errorMessage, this`contents
      ensures errorNum == response.errno && errorMessage == response.error
      ensures contents == (if PhpEmpty(response.error) then Some(response.body) else old(contents))
      ensures fired == Some(OnError) <==> !PhpEmpty(response.error) && onError
      ensures fired == Some(OnFinished) <==> PhpEmpty(response.error) && onFinished
    {
      SetErrorInfo(response.errno, response.error);
      if !PhpEmpty(response.error) {
        fired := if onError then Some(OnError) else None;
      } else {
        contents := Some(response.body);
        fired := if onFinished then Some(OnFinished) else None;
      }
    }

    /**
     * The second half of `exec` on a prepared handle: the transfer with its
     * retries, then the outcome of the last attempt.
     */
    method Perform(attempt: nat -> Response, hooked: bool) returns (attempts: nat, fired: Option<Callback>)
      requires Valid()
      modifies this`disk, this`errorNum, this`errorMessage, this`contents
      ensures Valid()
      ensures attempts == AttemptCount(attempt, maxRequest) && 1 <= attempts <= maxRequest + 1
      ensures var last := attempt(attempts);
              && errorNum == last.errno && errorMessage == last.error
              && contents == (if PhpEmpty(last.error) then Some(last.body) else old(contents))
              && (fired == Some(OnError) <==> !PhpEmpty(last.error) && onError)
              && (fired == Some(OnFinished) <==> PhpEmpty(last.error) && onFinished)
      ensures hooked ==> disk == AfterAttempts(old(State()), CacheCookieFile(), RequestPath(), attempt, attempts, fsAllows).disk
      ensures !hooked ==> disk == old(disk)
    {
      var response;
      attempts, response := Transfer(attempt, hooked);
      fired := Finish(response);
    }

    /**
     * `exec`: prepares the request, performs the transfer with its retries
     * and records the outcome. Returns the number of attempts and the
     * callback that ran.
     */
    method Exec(url: string, info: UrlInfo, options: Options, now: int, transport: Options -> nat -> Response)
      returns (attempts: nat, fired: Option<Callback>)
      requires Valid()
      modifies this`currentUri, this`currentUriInfo, this`curlOptions, this`handleOptions
      modifies this`disk, this`errorNum, this`errorMessage, this`contents
      ensures Valid()
      ensures currentUri == url && currentUriInfo == info
      ensures curlOptions == CacheCookieOptions(SendCookieOptions(old(curlOptions), Load(old(disk), CacheCookieFile()),
                                                                  RequestPath(), now, strtotime), cookieDir)
      ensures handleOptions == Applied(old(handleOptions), curlOptions, url, timeout, options, info.scheme == Some("https"))
      ensures attempts == AttemptCount(transport(handleOptions), maxRequest) && 1 <= attempts <= maxRequest + 1
      ensures var last := transport(handleOptions)(attempts);
              && errorNum == last.errno && errorMessage == last.error
              && contents == (if PhpEmpty(last.error) then Some(last.body) else old(contents))
              && (fired == Some(OnError) <==> !PhpEmpty(last.error) && onError)
              && (fired == Some(OnFinished) <==> PhpEmpty(last.error) && onFinished)
      ensures Hooked(handleOptions) ==> disk == AfterAttempts(old(State()), CacheCookieFile(), RequestPath(),
                                                              transport(handleOptions), attempts, fsAllows).disk
      ensures !Hooked(handleOptions) ==> disk == old(disk)
    {
      Prepare(url, info, options, now);
      attempts, fired := Perform(transport(handleOptions), Hooked(handleOptions));
    }
  }
}
