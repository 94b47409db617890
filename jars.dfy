/**
 * The per-origin cookie jar: the PHP array from cookie name to record that
 * the client keeps in its cache file. PHP arrays remember insertion order,
 * and overwriting an existing name keeps its place; the `Cookie` request
 * header lists the records in that order.
 */
module Jars {
  import opened Wrappers
  import opened PhpStrings
  import opened Cookies

  datatype Jar = Jar(names: seq<string>, cookies: map<string, Cookie>)

  /** No name occurs twice: each one is absent from the names before it. */
  ghost predicate Distinct(names: seq<string>)
    decreases |names|
  {
    names == [] || (names[|names| - 1] !in names[..|names| - 1] && Distinct(names[..|names| - 1]))
  }

  /** Names are listed once each, and exactly the names that have a record. */
  ghost predicate ValidJar(j: Jar) {
    && Distinct(j.names)
    && (forall n :: n in j.cookies <==> n in j.names)
  }

  const EmptyJar: Jar := Jar([], map[])

  function Lookup(j: Jar, name: string): Option<Cookie> {
    if name in j.cookies then Some(j.cookies[name]) else None
  }

  /** The name a record is filed under: `$cookie['key']`, with PHP's `null` key read as "". */
  function KeyOf(c: Cookie): string {
    Field(c, "key").GetOr("")
  }

  /** What `implode` prints for `$info['kv']` (a `null` prints as ""). */
  function KvOf(c: Cookie): string {
    Field(c, "kv").GetOr("")
  }

  /**
   * `$cookies[$name] = $cookie`: the record under `name` is replaced, every
   * other record is kept, and a new name goes to the end.
   */
  function Put(j: Jar, name: string, c: Cookie): (r: Jar)
    ensures Lookup(r, name) == Some(c)
    ensures forall m :: m != name ==> Lookup(r, m) == Lookup(j, m)
    ensures j.names <= r.names && |r.names| <= |j.names| + 1
    ensures ValidJar(j) ==> ValidJar(r)
    ensures ValidJar(j) && name in j.cookies ==> r.names == j.names
  {
    if name in j.names then Jar(j.names, j.cookies[name := c])
    else
      var r := Jar(j.names + [name], j.cookies[name := c]);
      assert r.names[..|r.names| - 1] == j.names;
      r
  }

  /**
   * A second record with the same name replaces the first one outright:
   * one entry, holding the later record, in the place of the first.
   */
  lemma PutTwice(j: Jar, name: string, c1: Cookie, c2: Cookie)
    ensures Put(Put(j, name, c1), name, c2) == Put(j, name, c2)
  {
    var once := Put(j, name, c1);
    assert name in once.names && once.names == Put(j, name, c2).names;
    assert j.cookies[name := c1][name := c2] == j.cookies[name := c2];
  }

  /**
   * The `kv` of every record in `names` order that is valid for the
   * request, as the `autoSendCookie` loop collects them.
   */
  function SentKvs(cookies: map<string, Cookie>, names: seq<string>,
                   requestPath: string, now: int, strtotime: string -> Option<int>): (r: seq<string>)
    ensures |r| <= |names|
    decreases |names|
  {
    if names == [] then []
    else
      var rest := SentKvs(cookies, names[..|names| - 1], requestPath, now, strtotime);
      var n := names[|names| - 1];
      if n in cookies && CookieIsValid(cookies[n], requestPath, now, strtotime)
      then rest + [KvOf(cookies[n])]
      else rest
  }

  /** One more name: its `kv` is appended when its record is valid. */
  lemma SentKvsStep(cookies: map<string, Cookie>, names: seq<string>, i: nat,
                    requestPath: string, now: int, strtotime: string -> Option<int>)
    requires i < |names|
    ensures SentKvs(cookies, names[..i + 1], requestPath, now, strtotime)
         == SentKvs(cookies, names[..i], requestPath, now, strtotime)
            + (if names[i] in cookies && CookieIsValid(cookies[names[i]], requestPath, now, strtotime)
               then [KvOf(cookies[names[i]])] else [])
  {
    assert names[..i + 1][..i] == names[..i];
  }

  /** Some name among `names` has a valid record whose `kv` is `kv`. */
  ghost predicate SentFrom(cookies: map<string, Cookie>, names: seq<string>, kv: string,
                           requestPath: string, now: int, strtotime: string -> Option<int>)
  {
    exists i :: 0 <= i < |names| && names[i] in cookies
      && CookieIsValid(cookies[names[i]], requestPath, now, strtotime)
      && KvOf(cookies[names[i]]) == kv
  }

  /** A `kv` is in the list exactly when some valid record carries it. */
  lemma {:induction false} SentKvsMembers(cookies: map<string, Cookie>, names: seq<string>, kv: string,
                                          requestPath: string, now: int, strtotime: string -> Option<int>)
    ensures kv in SentKvs(cookies, names, requestPath, now, strtotime)
        <==> SentFrom(cookies, names, kv, requestPath, now, strtotime)
    decreases |names|
  {
    if names != [] {
      var init := names[..|names| - 1];
      var n := names[|names| - 1];
      SentKvsMembers(cookies, init, kv, requestPath, now, strtotime);
      if SentFrom(cookies, init, kv, requestPath, now, strtotime) {
        var i :| 0 <= i < |init| && init[i] in cookies
          && CookieIsValid(cookies[init[i]], requestPath, now, strtotime)
          && KvOf(cookies[init[i]]) == kv;
        assert names[i] == init[i];
      }
      if SentFrom(cookies, names, kv, requestPath, now, strtotime) {
        var i :| 0 <= i < |names| && names[i] in cookies
          && CookieIsValid(cookies[names[i]], requestPath, now, strtotime)
          && KvOf(cookies[names[i]]) == kv;
        if i < |init| {
          assert init[i] == names[i];
        }
      }
    }
  }

  /** A jar whose every record is expired sends nothing. */
  lemma {:induction false} AllExpiredSendsNothing(cookies: map<string, Cookie>, names: seq<string>,
                                                  requestPath: string, now: int, strtotime: string -> Option<int>)
    requires forall n :: n in cookies ==> Expired(cookies[n], now, strtotime)
    ensures SentKvs(cookies, names, requestPath, now, strtotime) == []
    decreases |names|
  {
    if names != [] {
      AllExpiredSendsNothing(cookies, names[..|names| - 1], requestPath, now, strtotime);
    }
  }
}
