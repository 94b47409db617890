# Rurl cookie cache, retry loop and URL builder, in Dafny

This project models the core of `ToolPackage\Rurl`, a PHP wrapper around
curl. The core is the client's own cookie handling, its request loop and
its URL helper:

- **Parsing a `Set-Cookie:` header line** into a record. The record holds
  `key`, `value` and `kv` from the first `name=value` segment, one entry per
  attribute, and a `path` that defaults to the request path's directory.
- **The per-origin cookie cache.** A jar of records is stored in a file
  named by a digest of scheme and host. The header hook updates the jar.
  Directory and file creation record error 9001 when they fail.
- **Sending cookies.** A record is sent when it has not expired and passes
  the path check. The check applies only to a path that is non-empty, is
  not "/" and starts with '/'. The request path must then start with that
  path with its trailing slashes removed, compared as a plain string. So
  `/admin/` is sent for `/admin`, and a path of "/" or a relative path is
  sent everywhere. The `kv`s of the sent records are joined by `"; "` into
  the `Cookie` option.
- **`exec`.** It applies the options in order. It retries after a timeout
  (curl error 28) up to `maxRequest` more times. It records the final error
  pair and fires the error or finished callback.
- **`setUrlParam`.** It rebuilds a URL with parameters appended to its
  query.

## Modules

- `Wrappers`: `Option`.
- `PhpStrings`: the PHP string built-ins the code depends on.
  - `empty()` on strings.
  - `explode`/`implode` with a one-character delimiter.
  - `trim`/`rtrim`.
  - POSIX `dirname`.
  - One-character `str_replace`.
  - Decimal printing.
- `Cookies`: the cookie record and `parseCookieHeader`, `getDirname` and
  `cookieIsValid`.
- `Jars`: the stored jar, a PHP array that keeps insertion order, and the
  list of `kv`s that `autoSendCookie` collects.
- `CookieStore`: the disk, `createFile`, `storeCookie`,
  `getCacheCookieFile` and the effect of `headerFunction`. Each is a
  function from the old store (disk plus error pair) to the new one.
- `Retry`: the number of transfer attempts `exec` makes.
- `UrlParams`: `setUrlParam`.
- `Client`: the class `Rurl`. It has the PHP object's fields, and methods
  that update them step by step. Each method is proved against the
  functions of the modules above.

The file system is a set of directories and a map from file to jar. Whether
a path may be created is the parameter `fsAllows`. `md5`, `strtotime` and
`urlencode` are function parameters. `parse_url` is not modelled: callers
pass its result (`UrlInfo`). A transfer is a function from the handle's
options and the attempt number to what curl reports: error number, error
text, body and header lines.

## Model

| member | source | states |
|---|---|---|
| PhpStrings.TrimLeft | src/Rurl.php:209 | `ltrim` drops exactly the longest prefix of listed characters; the result is a suffix that does not start with one |
| PhpStrings.TrimRight | src/Rurl.php:310 | `rtrim` drops exactly the longest suffix of listed characters; the result is a prefix that does not end with one |
| PhpStrings.TrimLeftKeeps | src/Rurl.php:490 | `ltrim` leaves a string alone when its first character is not in the list |
| PhpStrings.TrimRightOne | src/Rurl.php:490 | `rtrim` removes exactly one trailing listed character when the one before it is not listed |
| PhpStrings.Split | src/Rurl.php:209 | `explode` gives at least one piece, and no piece contains the delimiter |
| PhpStrings.SplitNoDelimiter | src/Rurl.php:211 | `explode` of a string without the delimiter is that string alone |
| PhpStrings.SplitAtFirst | src/Rurl.php:209-211 | the first piece is the text before the first delimiter; the rest is the split of what follows |
| PhpStrings.JoinSplit | src/Rurl.php:209 | implode of explode with the same delimiter gives the string back |
| PhpStrings.SplitJoin | src/Rurl.php:209 | explode of implode of delimiter-free pieces gives the pieces back |
| PhpStrings.ReplaceChar | src/Rurl.php:232 | `str_replace` of one character: same length, that character replaced everywhere, nothing else changed |
| PhpStrings.StripBasename | src/Rurl.php:232 | removes exactly the trailing characters after the last '/' |
| PhpStrings.Dirname | src/Rurl.php:232 | `dirname` is "" only for "", is ".", "/" or a prefix of the path not ending in '/', and is absolute for an absolute path |
| PhpStrings.DirnameOfChild | src/Rurl.php:232 | `dirname` of `dir/name` is `dir` |
| PhpStrings.DirnameOfRootChild | src/Rurl.php:232 | `dirname` of `/name` is `/` |
| PhpStrings.StripBasenameOfName | src/Rurl.php:232 | only the trailing name is stripped |
| PhpStrings.DirnameIgnoresTrailingSlash | src/Rurl.php:228-232 | a trailing '/' does not change `dirname` |
| PhpStrings.NatToString | src/Rurl.php:499 | a port prints as decimal digits without a leading zero, whose value (`DigitsValue`) is the port |
| Cookies.Segments | src/Rurl.php:208-209 | the trimmed header value after the 11-character prefix splits into at least one segment |
| Cookies.GetDirname | src/Rurl.php:244-259 | the default cookie path is never empty for a non-empty request path, and is absolute for an absolute or missing one |
| Cookies.GetDirnameOfChild | src/Rurl.php:244-259 | the default path for `/a/b` is `/a` |
| Cookies.GetDirnameOfRootChild | src/Rurl.php:244-259 | the default path for a request path directly under the root, such as `/login`, is `/` |
| Cookies.GetDirnameIgnoresTrailingSlash | src/Rurl.php:248-252 | `/a/b/` is scoped like `/a/b`, because the slash-stripping branch is overwritten |
| Cookies.ParsedCookie | src/Rurl.php:206-237 | what `parseCookieHeader` returns: `key`, `value`, `kv` and `path` are always set; the path is non-empty, and absolute for an absolute or missing request path |
| Cookies.WithAttributes | src/Rurl.php:217-221 | the record after the attribute segments, one assignment per segment in order; no entry of the record is ever removed |
| Cookies.AddAttributes | src/Rurl.php:217-221 | the attribute loop sets each segment's name to its value, in order |
| Cookies.ParseCookieHeader | src/Rurl.php:206-237 | the record equals the specification `ParsedCookie` of the line and the request path |
| Cookies.FirstTwoPieces | src/Rurl.php:211 | `a=b=c` gives name `a` and value `b`: text after a second '=' is lost |
| Cookies.FirstTwoNoValue | src/Rurl.php:211 | a segment without '=' gives its whole text as name and a null value |
| Cookies.WithAttributesUntouched | src/Rurl.php:217-221 | an entry no attribute names keeps its value and presence |
| Cookies.LastAttributeWins | src/Rurl.php:217-221 | a name set by several attributes holds the value of the last one |
| Cookies.ParsedPair | src/Rurl.php:208-216 | for `k=v; attrs`, the record's key is `k`, its value `v` and its kv `k=v` |
| Cookies.ParsedFirstSegment | src/Rurl.php:208-216 | unless an attribute reuses the name, `kv` is the whole first segment verbatim, and `key` and `value` are its first two '='-pieces (value null when there is no '=') |
| Cookies.ParsedWithoutAttributes | src/Rurl.php:208-216 | `Set-Cookie: k=v` with no attributes yields key `k`, value `v` and kv `k=v` |
| Cookies.ParsedValueWithEquals | src/Rurl.php:210-216 | a value with more '=' (base64 padding) keeps the whole pair in `kv`, but `value` stops at the second '=' |
| Cookies.DefaultPathKeepsPair | src/Rurl.php:223-235 | filling in the default path leaves key, value and kv alone |
| Cookies.ParsedPath | src/Rurl.php:223-235 | the path is always set; an absolute attribute path is kept, anything else becomes the request directory |
| Cookies.CookieIsValid | src/Rurl.php:445-468 | a valid record has not expired (expiry minus 8 hours after `now`); with no restricting path (empty, "0", "/" or relative) every unexpired record is valid; with a restricting path, validity needs the request path to start with the path minus trailing '/', and a path that is itself a prefix of the request path is enough |
| Cookies.RfcPathMatchAccepted | src/Rurl.php:457-465 | every path that section 5.1.4 of RFC 6265 path-matches passes the validity check |
| Cookies.AdminPathExamples | src/Rurl.php:457-465 | path `/admin` is sent for `/admin/x` and `/administrator`, and not for `/pub/x` |
| Cookies.TrailingSlashPathExample | src/Rurl.php:457-465 | path `/admin/` is sent for `/admin`, which RFC 6265 would not match |
| Cookies.UnparseableExpiryInvalid | src/Rurl.php:447-455 | an expiry `strtotime` cannot read counts as time 0, so the cookie is invalid |
| Cookies.UnrestrictedPathIgnored | src/Rurl.php:457 | with no restricting path, validity does not depend on the request path |
| Jars.Put | src/Rurl.php:270 | the name now maps to the record and no other name changes; a new name goes last; a well-formed jar stays well-formed |
| Jars.PutTwice | src/Rurl.php:270 | a second record under the same name replaces the first in its place |
| Jars.SentKvs | src/Rurl.php:426-433 | the `kv`s of the valid records in jar order; at most one per name |
| Jars.SentKvsStep | src/Rurl.php:427-433 | one more record appends its kv exactly when it is valid |
| Jars.SentKvsMembers | src/Rurl.php:427-433 | a kv is collected exactly when some valid record carries it |
| Jars.AllExpiredSendsNothing | src/Rurl.php:447-455 | a jar of expired records sends nothing |
| CookieStore.Load | src/Rurl.php:279-289 | no file gives the empty jar; on a well-formed disk the loaded jar is well-formed |
| CookieStore.CacheFile | src/Rurl.php:307-311 | the file is the cookie directory without trailing '/' or '\', a '/', then the digest of scheme and host as its name |
| CookieStore.CacheFileDirectory | src/Rurl.php:307-311 | the cache file lies directly in the cookie directory, or in "/" when none is set |
| CookieStore.CacheFileIgnoresTrailingSeparator | src/Rurl.php:310 | a trailing '/' or '\' on the directory gives the same file |
| CookieStore.OriginsShareCacheFile | src/Rurl.php:310 | `http`+`sa.com` and `https`+`a.com` share one cache file |
| CookieStore.CreateFile | src/Rurl.php:185-201 | nothing happens when the directory exists; otherwise the directory is added exactly when it may be created, the file exists afterwards exactly when both may be created, a success leaves the error pair alone, and a failure records 9001 with the file message last; no existing file changes |
| CookieStore.Write | src/Rurl.php:301 | `file_put_contents` succeeds when the directory exists and the file exists or may be created; then the file loads back as the jar, otherwise the disk is unchanged; other files and the directories never change |
| CookieStore.WriteKeepsValid | src/Rurl.php:301 | writing a well-formed jar keeps the disk well-formed |
| CookieStore.StoreCookie | src/Rurl.php:294-302 | no other cache file changes, no directory disappears, the error code stays or becomes 9001, and an existing file leaves the error pair alone |
| CookieStore.StoreRoundTrip | src/Rurl.php:279-302 | a stored jar loads back unchanged when the file is writable, and no other cache file changes |
| CookieStore.StoreFailure | src/Rurl.php:294-302 | an unwritable file loses the jar; error 9001 only when the directory was missing |
| CookieStore.StoreKeepsValid | src/Rurl.php:294-302 | storing keeps the disk well-formed |
| CookieStore.HeaderStep | src/Rurl.php:265-274 | one header line changes at most the current cache file: other files keep their jars, no directory disappears, the error code stays or becomes 9001 |
| CookieStore.OtherHeadersIgnored | src/Rurl.php:265-274 | a header line without the `Set-Cookie:` prefix changes nothing |
| CookieStore.SetCookieUpdatesOneEntry | src/Rurl.php:265-274 | a `Set-Cookie:` line replaces exactly the record under its key; other names and other files are untouched |
| CookieStore.LaterSetCookieWins | src/Rurl.php:265-274 | of two `Set-Cookie:` lines with the same key, the later record is stored, and the jar grows by at most one |
| CookieStore.AfterTwoHeaders | src/Rurl.php:265-274 | the hook over two lines is one step after the other |
| CookieStore.AfterHeadersKeepsValid | src/Rurl.php:265-274 | any sequence of header lines keeps the disk well-formed |
| UrlParams.ParamString | src/Rurl.php:484-493 | for an array, the pair text with '&' trimmed: neither starting nor ending with '&'; a string is used as it is |
| UrlParams.BuildParamString | src/Rurl.php:484-493 | the accumulated parameter string equals the specification `ParamString` |
| UrlParams.Pieces | src/Rurl.php:488 | one `name=urlencode(value)` piece per pair, in order |
| UrlParams.JoinSnoc | src/Rurl.php:488 | joining one more piece appends the separator and the piece |
| UrlParams.PairsTextIsJoin | src/Rurl.php:486-489 | before trimming, the text is the pieces joined by '&' plus a final '&' |
| UrlParams.ParamStringOfPairs | src/Rurl.php:486-490 | with no '&' in names or encoded values, the parameter string is the pieces joined by '&' |
| UrlParams.JoinEnds | src/Rurl.php:490 | the joined pieces neither start nor end with '&', so the trim removes only the final one |
| UrlParams.MergedUrl | src/Rurl.php:495-516 | the URL starts with scheme, host, port and path; it ends with `#fragment` when there is one; with no query, parameters or fragment it is just that base |
| UrlParams.SetUrlParam | src/Rurl.php:483-517 | the new URL is `MergedUrl`: scheme, host, port, path, the query with the parameters appended, then the fragment |
| UrlParams.QueryPartCases | src/Rurl.php:502-512 | parameters follow an existing query after '&', or start a query with '?'; with no parameters only the existing query remains |
| UrlParams.ExistingQueryKept | src/Rurl.php:497-513 | the existing query is kept, directly after the base and ahead of anything appended |
| UrlParams.UserInfoDropped | src/Rurl.php:497-515 | user name and password are dropped from the URL |
| UrlParams.PairExample | src/Rurl.php:486-490 | `['y' => '2']` gives `y=2` |
| UrlParams.MergeExamples | src/Rurl.php:495-516 | `http://h/p?x=1` with `y=2` gives `http://h/p?x=1&y=2`; without the query it gives `http://h/p?y=2` |
| Retry.AttemptsFrom | src/Rurl.php:366-373 | counting from an attempt, every earlier attempt timed out, and the last one did not time out or used up the retries |
| Retry.AttemptCount | src/Rurl.php:364-373 | at least one attempt and at most `maxRequest + 1` |
| Retry.FirstSuccessStops | src/Rurl.php:364-366 | a first attempt that does not time out is the only one |
| Retry.AlwaysTimingOut | src/Rurl.php:366-373 | a server that always times out is tried exactly `maxRequest + 1` times |
| Retry.TimeoutsThenAnswer | src/Rurl.php:366-373 | `k` timeouts and then another outcome take `k + 1` attempts when `k <= maxRequest` |
| Retry.TimeoutsThenAnswerFrom | src/Rurl.php:366-373 | the same, counted from any attempt |
| Retry.DefaultAttempts | src/Rurl.php:44 | with the default of 3 retries, at most 4 attempts, and exactly 4 when every one times out |
| Client.SendCookieOptions | src/Rurl.php:421-439 | at most the `Cookie` option changes, and once set it is never removed |
| Client.CookieOptionFromValidRecords | src/Rurl.php:421-439 | the `Cookie` option is set exactly when some stored record is valid, and lists every valid record; otherwise the options are unchanged, so an earlier `Cookie` value stays; no other option changes |
| Client.ValidKvs | src/Rurl.php:426-433 | the loop collects the specification list of valid kvs, in jar order |
| Client.Applied | src/Rurl.php:346-362 | the handle always has the URL, timeout and return-transfer options, and for https peer verification is off |
| Client.AppliedPrecedence | src/Rurl.php:346-362 | https forces peer verification off; per-call options beat built-in ones, which beat persistent ones; earlier options stay unless overridden |
| Client.HookInstalled | src/Rurl.php:410-416 | with a cookie directory, the header hook is installed unless the call supplies its own |
| Client.NoCookieDirNoHook | src/Rurl.php:410-416 | without a cookie directory, and no earlier hook, headers are not looked at |
| Client.AfterAttemptsKeepsValid | src/Rurl.php:364-373 | header hooks over any number of attempts keep the disk well-formed |
| Client.Rurl.constructor | src/Rurl.php:19-84 | no error, no URL, no cookie directory, no options and no callbacks |
| Client.Rurl.SetErrorInfo | src/Rurl.php:118-122 | the error pair is set to the arguments |
| Client.Rurl.SetCookieDir | src/Rurl.php:177-180 | the cookie directory is set |
| Client.Rurl.SetOnFinished | src/Rurl.php:317-320 | a finished callback is registered |
| Client.Rurl.SetOnError | src/Rurl.php:326-329 | an error callback is registered |
| Client.Rurl.CreateFile | src/Rurl.php:185-201 | the new disk and error pair are those of `CookieStore.CreateFile`, and the disk stays well-formed |
| Client.Rurl.StoreCookie | src/Rurl.php:294-302 | the new disk and error pair are those of `CookieStore.StoreCookie` on the cache file |
| Client.Rurl.HeaderFunction | src/Rurl.php:265-274 | returns the line's length, and the cache becomes `HeaderStep` of the line |
| Client.Rurl.DeliverHeaders | src/Rurl.php:265-274 | the hook over a response's lines, in order, gives `AfterHeaders` |
| Client.Rurl.CacheCookie | src/Rurl.php:410-416 | the persistent options gain the header hook exactly when a cookie directory is set |
| Client.Rurl.AutoSendCookie | src/Rurl.php:421-439 | the persistent options become `SendCookieOptions` of the stored jar |
| Client.Rurl.ApplyOptions | src/Rurl.php:346-362 | the handle's options become `Applied`: persistent, then built-in, then per-call when non-empty, then https |
| Client.Rurl.Transfer | src/Rurl.php:364-373 | makes `AttemptCount` attempts and ends with the last attempt's response; with the hook, every attempt's headers reach the cache |
| Client.Rurl.Prepare | src/Rurl.php:339-362 | records the URL and its parts, sets the cookie and hook options, and applies all options to the handle |
| Client.Rurl.Finish | src/Rurl.php:374-404 | the error pair is the last attempt's; on an error only the error callback can fire; otherwise the body is kept and only the finished callback can fire |
| Client.Rurl.Perform | src/Rurl.php:363-404 | the attempt count is `AttemptCount`, at most `maxRequest + 1`; the last attempt gives the error pair, contents and callback; the cache sees every attempt's headers when hooked |
| Client.Rurl.Exec | src/Rurl.php:337-405 | the whole request: options, attempt count within `maxRequest + 1`, final error pair, contents, callback fired, and the cookie cache after the headers of every attempt |

## Left out

- curl itself is not modelled. A transfer is a parameter mapping the handle's options and the attempt number to a response. Timing and the network are outside the model.
- `parse_url` is not modelled. `Exec` and `SetUrlParam` receive its result. A URL it cannot parse is `NoUrlInfo`.
- `md5`, `strtotime`, `time()` and `urlencode` are parameters. They are the class constants `digest` and `strtotime`, the argument `now`, and the argument `urlencode`.
- JSON encoding of the jar on disk is not modelled. A file holds the jar that was written, and an empty file reads as an empty jar. PHP would turn a numeric cookie name into an integer key on decoding; this is not modelled.
- CookieStore.StoreRoundTrip: promises more than PHP gives for a jar holding bytes that are not valid UTF-8. For such a jar `json_encode` fails, `file_put_contents` writes "", and the next load finds an empty jar. The model writes the jar as it is.
- `mkdir` is recursive, but the model adds only the file's own directory. `fsAllows` decides success for each path.
- Strings are sequences of characters, one per byte of the PHP string.
- Client.Rurl.SetOnFinished: the callback is a flag, and what the callable does when it runs is not modelled. `Exec` reports which callback fired.
- Client.Rurl.SetOnError: the same as `SetOnFinished`.
- Client.Rurl.CacheCookieFile: this reads the parts of the current URL stored by `exec` rather than parsing `currentUri` again. `exec` sets both from the same URL.
- `make()` (the singleton), `getErrorInfo` and `setErrorMessage`/`setErrorNum` are not modelled. `setErrorInfo` covers the last two.
- The option setters are not modelled. `setOptions` replaces the persistent options. `setHeaders`, `setCookieFile` and `setResponseHeaderFile` each store their argument under one curl option. `setCookieJar` first runs `createFile` when the file does not exist, which `Client.Rurl.CreateFile` models, and then stores the name under the cookie-jar option.
- `get`, `post` and `methodInterface` are not modelled. `get` builds its URL with `setUrlParam` and calls `exec`. `post` and `methodInterface` set the POST or custom-request option and the post fields, then call `exec`.
- `setUrlParam` accepts only an array or a string parameter; any other type yields the empty parameter string, which `Raw("")` covers. Nested arrays are not modelled.
- `$start_time` and the commented-out block after `curl_close` are not modelled; neither has any effect.
- Closing the handle is not modelled as a reset: with PHP 8 it has no effect, so options set by one call stay on the handle for the next (`handleOptions`).
- Quirks of the code that the model reproduces:
  - A cookie value is cut at a second '=' (`explode` without a limit).
  - A trailing '/' on the request path is stripped and then overwritten, so `/a/b/` gives `/a`.
  - `autoSendCookie` runs even when no cookie directory is set. It then reads the file in "/".
  - The `Cookie` option is never cleared once it has been set.
