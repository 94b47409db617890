/**
 * One cookie record as the client stores it, how a `Set-Cookie:` response
 * header line becomes such a record, and when a stored record is sent again.
 *
 * A record is the PHP associative array the client builds: the entries
 * "key", "value" and "kv" from the first `name=value` segment, then one
 * entry per attribute segment (names are case-sensitive and may overwrite
 * the first three), then "path". A PHP `null` entry is `None`.
 */
module Cookies {
  import opened Wrappers
  import opened PhpStrings

  type Cookie = map<string, Option<string>>

  /** `$cookie[name]`: `None` when the entry is unset or null. */
  function Field(c: Cookie, name: string): Option<string> {
    if name in c then c[name] else None
  }

  /** The case-sensitive 11-character prefix the header hook looks for. */
  const SetCookiePrefix: string := "Set-Cookie:"

  predicate IsSetCookie(line: string) {
    |line| >= |SetCookiePrefix| && line[..|SetCookiePrefix|] == SetCookiePrefix
  }

  /** `substr(line, 11)`, which is "" for a line of 11 characters or fewer. */
  function AfterPrefix(line: string): string {
    if |line| <= |SetCookiePrefix| then "" else line[|SetCookiePrefix|..]
  }

  /** The `;`-separated segments of the trimmed header value. */
  function Segments(line: string): (r: seq<string>)
    ensures |r| >= 1
  {
    Split(Trim(AfterPrefix(line)), ';')
  }

  /**
   * `list($k, $v) = explode('=', s)`: the first two `=`-pieces; the second
   * is `null` when there is no '=' at all, and text after a second '=' is lost.
   */
  function FirstTwo(s: string): (string, Option<string>) {
    var ps := Split(s, '=');
    (ps[0], if |ps| >= 2 then Some(ps[1]) else None)
  }

  /** The `(name, value)` an attribute segment contributes. */
  function Attribute(item: string): (string, Option<string>) {
    FirstTwo(Trim(item))
  }

  /** The record built from the first segment alone. */
  function InitialCookie(kv: string): Cookie {
    var kvPair := FirstTwo(kv);
    map["key" := Some(kvPair.0), "value" := kvPair.1, "kv" := Some(kv)]
  }

  /** `$cookie[$k] = $v` for each attribute segment in order. */
  function WithAttributes(c: Cookie, items: seq<string>): (r: Cookie)
    ensures c.Keys <= r.Keys
    decreases |items|
  {
    if items == [] then c
    else
      var a := Attribute(items[0]);
      WithAttributes(c[a.0 := a.1], items[1..])
  }

  /**
   * The directory of the request path that a cookie without an absolute
   * path attribute is scoped to: "/" for an empty request path, otherwise
   * `dirname` with backslashes turned into slashes.
   */
  function GetDirname(requestPath: string): (r: string)
    ensures requestPath == "" || requestPath[0] == '/' ==> r != "" && r[0] == '/'
    ensures !PhpEmpty(requestPath) ==> r != ""
  {
    if PhpEmpty(requestPath) then "/" else ReplaceChar(Dirname(requestPath), '\\', '/')
  }

  /** The directory of `/a/b` is `/a`. */
  lemma GetDirnameOfChild(dir: string, name: string)
    requires dir != [] && dir[|dir| - 1] != '/' && '\\' !in dir
    requires name != [] && '/' !in name
    ensures GetDirname(dir + "/" + name) == dir
  {
    DirnameOfChild(dir, name);
    assert ReplaceChar(dir, '\\', '/') == dir;
  }

  /** A request path directly under the root, such as `/login`, is scoped to "/". */
  lemma GetDirnameOfRootChild(name: string)
    requires name != [] && '/' !in name
    ensures GetDirname("/" + name) == "/"
  {
    DirnameOfRootChild(name);
    assert ReplaceChar("/", '\\', '/') == "/";
  }

  /**
   * A request path ending in '/' is scoped like the same path without the
   * slash: `/a/b/` gives `/a`, not `/a/b`, since the slash-stripping branch
   * of the source is overwritten on the next line.
   */
  lemma GetDirnameIgnoresTrailingSlash(p: string)
    requires !PhpEmpty(p)
    ensures GetDirname(p + "/") == GetDirname(p)
  {
    DirnameIgnoresTrailingSlash(p);
  }

  /** The path attribute is kept when it is non-empty and starts with '/'. */
  predicate HasAbsolutePath(c: Cookie) {
    var p := Field(c, "path");
    p.Some? && !PhpEmpty(p.value) && p.value[0] == '/'
  }

  function WithDefaultPath(c: Cookie, requestPath: string): Cookie {
    if HasAbsolutePath(c) then c else c["path" := Some(GetDirname(requestPath))]
  }

  /** The record `parseCookieHeader` returns for one header line. */
  function ParsedCookie(line: string, requestPath: string): (r: Cookie)
    ensures {"key", "value", "kv", "path"} <= r.Keys
    ensures Field(r, "path").Some? && Field(r, "path").value != ""
    ensures requestPath == "" || requestPath[0] == '/' ==> Field(r, "path").value[0] == '/'
  {
    var segs := Segments(line);
    WithDefaultPath(WithAttributes(InitialCookie(segs[0]), segs[1..]), requestPath)
  }

  /** The loop over the attribute segments: each sets its name to its value, in order. */
  method AddAttributes(initial: Cookie, infoList: seq<string>) returns (cookie: Cookie)
    ensures cookie == WithAttributes(initial, infoList)
  {
    cookie := initial;
    for i := 0 to |infoList|
      invariant WithAttributes(cookie, infoList[i..]) == WithAttributes(initial, infoList)
    {
      var item := Split(Trim(infoList[i]), '=');
      var k, v := item[0], if |item| >= 2 then Some(item[1]) else None;
      assert (k, v) == Attribute(infoList[i]);
      assert infoList[i..][1..] == infoList[i + 1..];
      cookie := cookie[k := v];
    }
    assert infoList[|infoList|..] == [];
  }

  /** Parses one `Set-Cookie:` header line against the current request path. */
  method ParseCookieHeader(header: string, requestPath: string) returns (cookie: Cookie)
    ensures cookie == ParsedCookie(header, requestPath)
  {
    var segments := Segments(header);
    var kv := segments[0];
    var infoList := segments[1..];
    var kvPair := FirstTwo(kv);
    cookie := map["key" := Some(kvPair.0), "value" := kvPair.1, "kv" := Some(kv)];
    cookie := AddAttributes(cookie, infoList);
    ghost var attributed := cookie;
    var path := Field(cookie, "path");
    if path.None? || PhpEmpty(path.value) || path.value[0] != '/' {
      assert !HasAbsolutePath(attributed);
      var defaultPath := "/";
      if !PhpEmpty(requestPath) {
        defaultPath := ReplaceChar(Dirname(requestPath), '\\', '/');
      }
      assert defaultPath == GetDirname(requestPath);
      cookie := cookie["path" := Some(defaultPath)];
    } else {
      assert HasAbsolutePath(attributed);
    }
    assert cookie == WithDefaultPath(attributed, requestPath);
  }

  /** `explode('=')` stops at the second '=': `a=b=c` gives `a` and `b`. */
  lemma {:induction false} FirstTwoPieces(k: string, v: string, tail: string)
    requires '=' !in k && '=' !in v
    requires tail == [] || tail[0] == '='
    ensures FirstTwo(k + "=" + v + tail) == (k, Some(v))
  {
    SplitAtFirst(k, '=', v + tail);
    assert k + "=" + v + tail == k + ['='] + (v + tail);
    if tail == [] {
      SplitNoDelimiter(v, '=');
      assert v + tail == v;
    } else {
      SplitAtFirst(v, '=', tail[1..]);
      assert v + tail == v + ['='] + tail[1..];
    }
  }

  /** A segment without '=' gives its whole text as name and a null value. */
  lemma FirstTwoNoValue(s: string)
    requires '=' !in s
    ensures FirstTwo(s) == (s, None)
  {
    SplitNoDelimiter(s, '=');
  }

  /** The names an attribute list sets. */
  function AttributeNames(items: seq<string>): set<string> {
    set i | 0 <= i < |items| :: Attribute(items[i]).0
  }

  /** Attributes set exactly their own names and leave every other entry alone. */
  lemma {:induction false} WithAttributesUntouched(c: Cookie, items: seq<string>, name: string)
    requires name !in AttributeNames(items)
    ensures Field(WithAttributes(c, items), name) == Field(c, name)
    ensures name in WithAttributes(c, items) <==> name in c
    decreases |items|
  {
    if items != [] {
      var a := Attribute(items[0]);
      assert a.0 in AttributeNames(items);
      assert AttributeNames(items[1..]) <= AttributeNames(items) by {
        forall n | n in AttributeNames(items[1..]) ensures n in AttributeNames(items) {
          var i :| 0 <= i < |items[1..]| && Attribute(items[1..][i]).0 == n;
          assert items[i + 1] == items[1..][i];
        }
      }
      WithAttributesUntouched(c[a.0 := a.1], items[1..], name);
    }
  }

  /** When a name is set more than once, the last segment that sets it wins. */
  lemma {:induction false} LastAttributeWins(c: Cookie, items: seq<string>, j: nat)
    requires j < |items|
    requires forall i :: j < i < |items| ==> Attribute(items[i]).0 != Attribute(items[j]).0
    ensures Field(WithAttributes(c, items), Attribute(items[j]).0) == Attribute(items[j]).1
    decreases |items|
  {
    var a := Attribute(items[0]);
    var rest := items[1..];
    if j == 0 {
      forall i | 0 <= i < |rest| ensures Attribute(rest[i]).0 != a.0 {
        assert rest[i] == items[i + 1];
      }
      WithAttributesUntouched(c[a.0 := a.1], rest, a.0);
    } else {
      assert rest[j - 1] == items[j];
      assert forall i :: j - 1 < i < |rest| ==> rest[i] == items[i + 1];
      LastAttributeWins(c[a.0 := a.1], rest, j - 1);
    }
  }

  /**
   * A header `Set-Cookie: k=v; attrs` with `k` and `v` free of '=' and ';',
   * whose attributes do not reuse the names "key", "value" or "kv", yields
   * key `k`, value `v` and the raw pair `k=v`.
   */
  lemma ParsedPair(line: string, requestPath: string, k: string, v: string, attrs: string)
    requires Trim(AfterPrefix(line)) == k + "=" + v + ";" + attrs
    requires '=' !in k && '=' !in v && ';' !in k && ';' !in v
    requires AttributeNames(Split(attrs, ';')) !! {"key", "value", "kv"}
    ensures Field(ParsedCookie(line, requestPath), "key") == Some(k)
    ensures Field(ParsedCookie(line, requestPath), "value") == Some(v)
    ensures Field(ParsedCookie(line, requestPath), "kv") == Some(k + "=" + v)
  {
    var kv := k + "=" + v;
    var segs := Segments(line);
    assert segs[0] == kv && segs[1..] == Split(attrs, ';') by {
      SplitAtFirst(kv, ';', attrs);
      assert k + "=" + v + ";" + attrs == kv + [';'] + attrs;
    }
    assert FirstTwo(kv) == (k, Some(v)) by {
      FirstTwoPieces(k, v, "");
      assert kv == k + "=" + v + "";
    }
    var attributed := WithAttributes(InitialCookie(kv), segs[1..]);
    WithAttributesUntouched(InitialCookie(kv), segs[1..], "key");
    WithAttributesUntouched(InitialCookie(kv), segs[1..], "value");
    WithAttributesUntouched(InitialCookie(kv), segs[1..], "kv");
    DefaultPathKeepsPair(attributed, requestPath);
  }

  /**
   * Unless an attribute reuses the name, `kv` is the whole first segment
   * verbatim, and `key` and `value` are its first two '='-pieces.
   */
  lemma ParsedFirstSegment(line: string, requestPath: string)
    ensures var segs := Segments(line);
            var c := ParsedCookie(line, requestPath);
            var names := AttributeNames(segs[1..]);
            && ("kv" !in names ==> Field(c, "kv") == Some(segs[0]))
            && ("key" !in names ==> Field(c, "key") == Some(FirstTwo(segs[0]).0))
            && ("value" !in names ==> Field(c, "value") == FirstTwo(segs[0]).1)
  {
    var segs := Segments(line);
    var initial := InitialCookie(segs[0]);
    var names := AttributeNames(segs[1..]);
    if "kv" !in names { WithAttributesUntouched(initial, segs[1..], "kv"); }
    if "key" !in names { WithAttributesUntouched(initial, segs[1..], "key"); }
    if "value" !in names { WithAttributesUntouched(initial, segs[1..], "value"); }
    DefaultPathKeepsPair(WithAttributes(initial, segs[1..]), requestPath);
  }

  /** A header `Set-Cookie: k=v` without attributes yields key `k`, value `v` and kv `k=v`. */
  lemma ParsedWithoutAttributes(line: string, requestPath: string, k: string, v: string)
    requires Trim(AfterPrefix(line)) == k + "=" + v
    requires '=' !in k && '=' !in v && ';' !in k && ';' !in v
    ensures Field(ParsedCookie(line, requestPath), "key") == Some(k)
    ensures Field(ParsedCookie(line, requestPath), "value") == Some(v)
    ensures Field(ParsedCookie(line, requestPath), "kv") == Some(k + "=" + v)
  {
    var kv := k + "=" + v;
    assert ';' !in kv;
    SplitNoDelimiter(kv, ';');
    assert Segments(line)[1..] == [];
    FirstTwoPieces(k, v, "");
    assert kv + "" == kv;
    ParsedFirstSegment(line, requestPath);
  }

  /**
   * A value holding further '=' (as base64 padding does) keeps the whole
   * pair in `kv`, but `value` stops at the second '='.
   */
  lemma ParsedValueWithEquals(line: string, requestPath: string, k: string, v: string, tail: string)
    requires Trim(AfterPrefix(line)) == k + "=" + v + tail
    requires '=' !in k && '=' !in v && tail != [] && tail[0] == '='
    requires ';' !in k && ';' !in v && ';' !in tail
    ensures Field(ParsedCookie(line, requestPath), "value") == Some(v)
    ensures Field(ParsedCookie(line, requestPath), "kv") == Some(k + "=" + v + tail)
  {
    var kv := k + "=" + v + tail;
    assert ';' !in kv;
    SplitNoDelimiter(kv, ';');
    assert Segments(line)[1..] == [];
    FirstTwoPieces(k, v, tail);
    ParsedFirstSegment(line, requestPath);
  }

  /** Filling in the path touches no other entry. */
  lemma DefaultPathKeepsPair(c: Cookie, requestPath: string)
    ensures Field(WithDefaultPath(c, requestPath), "key") == Field(c, "key")
    ensures Field(WithDefaultPath(c, requestPath), "value") == Field(c, "value")
    ensures Field(WithDefaultPath(c, requestPath), "kv") == Field(c, "kv")
  {
    assert "key" != "path" && "value" != "path" && "kv" != "path";
  }

  /**
   * The path entry is always set. An attribute path that is non-empty and
   * starts with '/' is kept; otherwise it is the request path's directory.
   * For an absolute (or absent) request path the result is absolute.
   */
  lemma ParsedPath(line: string, requestPath: string)
    ensures var c := ParsedCookie(line, requestPath);
            var segs := Segments(line);
            var attributed := WithAttributes(InitialCookie(segs[0]), segs[1..]);
            && Field(c, "path").Some?
            && (HasAbsolutePath(attributed) ==> Field(c, "path") == Field(attributed, "path"))
            && (!HasAbsolutePath(attributed) ==> Field(c, "path") == Some(GetDirname(requestPath)))
            && (requestPath == "" || requestPath[0] == '/' ==> Field(c, "path").value[0] == '/')
  {
  }

  /** `intval(strtotime(...))`: an unparseable date (PHP `false`) counts as 0. */
  function IntVal(t: Option<int>): int {
    t.GetOr(0)
  }

  /** The fixed eight-hour shift applied to the expiry time. */
  const ExpiryOffset: int := 3600 * 8

  /** An `expires` entry is present and, shifted back by eight hours, not after `now`. */
  predicate Expired(c: Cookie, now: int, strtotime: string -> Option<int>) {
    var e := Field(c, "expires");
    e.Some? && IntVal(strtotime(e.value)) - ExpiryOffset <= now
  }

  /** A non-empty path other than "/" that starts with '/' restricts the cookie. */
  predicate PathRestricted(c: Cookie) {
    var p := Field(c, "path");
    p.Some? && !PhpEmpty(p.value) && p.value != "/" && p.value[0] == '/'
  }

  /**
   * `cookieIsValid`: not expired, and for a restricted path, the request
   * path starts with the cookie path (trailing slashes removed) as a plain
   * string prefix.
   */
  predicate CookieIsValid(c: Cookie, requestPath: string, now: int, strtotime: string -> Option<int>)
    ensures CookieIsValid(c, requestPath, now, strtotime) ==> !Expired(c, now, strtotime)
    ensures !Expired(c, now, strtotime) && !PathRestricted(c) ==> CookieIsValid(c, requestPath, now, strtotime)
    ensures !Expired(c, now, strtotime) && PathRestricted(c) && Field(c, "path").value <= requestPath
            ==> CookieIsValid(c, requestPath, now, strtotime)
    ensures CookieIsValid(c, requestPath, now, strtotime) && PathRestricted(c)
            ==> TrimRight(Field(c, "path").value, {'/'}) <= requestPath
  {
    && !Expired(c, now, strtotime)
    && (PathRestricted(c) ==> TrimRight(Field(c, "path").value, {'/'}) <= requestPath)
  }

  /** Path-match of section 5.1.4 of RFC 6265. */
  predicate RfcPathMatch(requestPath: string, cookiePath: string) {
    || requestPath == cookiePath
    || (cookiePath <= requestPath && cookiePath != [] && cookiePath[|cookiePath| - 1] == '/')
    || (cookiePath <= requestPath && |cookiePath| < |requestPath| && requestPath[|cookiePath|] == '/')
  }

  /** Whatever RFC 6265 path-matches passes the path check (it is looser). */
  lemma RfcPathMatchAccepted(c: Cookie, requestPath: string, now: int, strtotime: string -> Option<int>)
    requires !Expired(c, now, strtotime)
    requires Field(c, "path").Some? && RfcPathMatch(requestPath, Field(c, "path").value)
    ensures CookieIsValid(c, requestPath, now, strtotime)
  {
    var p := Field(c, "path").value;
    assert TrimRight(p, {'/'}) <= p;
  }

  /**
   * With path `/admin` and no expiry, the cookie is sent for `/admin/x` and
   * for `/administrator` (which RFC 6265 would not match) and withheld for
   * `/pub/x`.
   */
  lemma AdminPathExamples(c: Cookie, now: int, strtotime: string -> Option<int>)
    requires Field(c, "path") == Some("/admin") && Field(c, "expires") == None
    ensures CookieIsValid(c, "/admin/x", now, strtotime)
    ensures CookieIsValid(c, "/administrator", now, strtotime)
    ensures !RfcPathMatch("/administrator", "/admin")
    ensures !CookieIsValid(c, "/pub/x", now, strtotime)
  {
    assert TrimRight("/admin", {'/'}) == "/admin";
    assert "/admin" <= "/admin/x";
    assert "/admin" <= "/administrator";
    assert "/administrator"[6] == 'i';
    assert "/pub/x"[1] != "/admin"[1];
  }

  /** Trailing slashes are ignored: path `/admin/` is sent for `/admin` itself. */
  lemma TrailingSlashPathExample(c: Cookie, now: int, strtotime: string -> Option<int>)
    requires Field(c, "path") == Some("/admin/") && Field(c, "expires") == None
    ensures CookieIsValid(c, "/admin", now, strtotime)
    ensures !RfcPathMatch("/admin", "/admin/")
  {
    assert "/admin/"[..6] == "/admin";
    assert TrimRight("/admin", {'/'}) == "/admin";
  }

  /** An expiry date `strtotime` cannot read makes the cookie invalid from the epoch on. */
  lemma UnparseableExpiryInvalid(c: Cookie, requestPath: string, now: int, strtotime: string -> Option<int>)
    requires Field(c, "expires").Some? && strtotime(Field(c, "expires").value) == None
    requires now >= 0
    ensures !CookieIsValid(c, requestPath, now, strtotime)
  {
  }

  /** Validity never depends on the request path for "/", relative or missing paths. */
  lemma UnrestrictedPathIgnored(c: Cookie, p1: string, p2: string, now: int, strtotime: string -> Option<int>)
    requires !PathRestricted(c)
    ensures CookieIsValid(c, p1, now, strtotime) == CookieIsValid(c, p2, now, strtotime)
  {
  }
}
