/**
 * The cookie cache on disk and the three steps that touch it: `createFile`,
 * `storeCookie` and the response-header hook `headerFunction`. The file
 * system is a set of existing directories and a map from cache file to the
 * jar it decodes to; whether the process may create a path is a parameter.
 * Each step is a function from the old state (disk plus the client's error
 * code and message) to the new one.
 */
module CookieStore {
  import opened Wrappers
  import opened PhpStrings
  import opened Cookies
  import opened Jars

  datatype Disk = Disk(dirs: set<string>, files: map<string, Jar>)

  /** What the cache steps can change: the disk and the client's error pair. */
  datatype Store = Store(disk: Disk, errorNum: int, errorMessage: string)

  /** The client's own error code for a directory or file it could not create. */
  const ErrorCreateFile: int := 9001

  /** "Attempt to create directory <d> failed." */
  function MkdirMessage(dir: string): string {
    "尝试创建目录" + dir + "失败"
  }

  /** "Attempt to create file <f> failed." */
  function TouchMessage(file: string): string {
    "尝试创建文件" + file + "失败"
  }

  /** Every cache file sits in a known directory and holds a well-formed jar. */
  ghost predicate ValidDisk(d: Disk) {
    && (forall f {:trigger d.files[f]} :: f in d.files ==> ValidJar(d.files[f]))
    && (forall f {:trigger Dirname(f)} :: f in d.files ==> Dirname(f) in d.dirs)
  }

  /** `getStoredCookie`: the jar in the file, or an empty one when there is no file. */
  function Load(d: Disk, file: string): (r: Jar)
    ensures file !in d.files ==> r == EmptyJar
    ensures ValidDisk(d) ==> ValidJar(r)
  {
    if file in d.files then d.files[file] else EmptyJar
  }

  /**
   * `getCacheCookieFile`: the cookie directory without trailing '/' or '\',
   * a '/', and the digest of scheme and host written one after the other.
   */
  function CacheFile(cookieDir: string, scheme: string, host: string, digest: string -> string): (r: string)
    ensures TrimRight(cookieDir, {'\\', '/'}) + "/" <= r
    ensures var name := digest(scheme + host); |name| <= |r| && r[|r| - |name|..] == name
  {
    TrimRight(cookieDir, {'\\', '/'}) + "/" + digest(scheme + host)
  }

  /**
   * The cache file lies directly in the configured directory (in "/" when
   * none is configured), for a digest that is a non-empty name.
   */
  lemma CacheFileDirectory(cookieDir: string, scheme: string, host: string, digest: string -> string)
    requires digest(scheme + host) != [] && '/' !in digest(scheme + host)
    ensures var dir := TrimRight(cookieDir, {'\\', '/'});
            Dirname(CacheFile(cookieDir, scheme, host, digest)) == if dir == "" then "/" else dir
  {
    var dir := TrimRight(cookieDir, {'\\', '/'});
    var name := digest(scheme + host);
    if dir == "" {
      var p := "/" + name;
      assert CacheFile(cookieDir, scheme, host, digest) == p;
      assert p[|p| - 1] == name[|name| - 1];
      StripBasenameOfName("/", name);
      assert "/"[..0] == "";
    } else {
      DirnameOfChild(dir, name);
    }
  }

  /** Trailing separators on the configured directory do not change the file. */
  lemma CacheFileIgnoresTrailingSeparator(cookieDir: string, scheme: string, host: string, digest: string -> string)
    ensures CacheFile(cookieDir + "/", scheme, host, digest) == CacheFile(cookieDir, scheme, host, digest)
    ensures CacheFile(cookieDir + "\\", scheme, host, digest) == CacheFile(cookieDir, scheme, host, digest)
  {
    var a, b := cookieDir + "/", cookieDir + "\\";
    assert a[..|a| - 1] == cookieDir && b[..|b| - 1] == cookieDir;
  }

  /**
   * Scheme and host are joined without a separator, so `http://sa.com` and
   * `https://a.com` share one cache file and one jar.
   */
  lemma OriginsShareCacheFile(cookieDir: string, digest: string -> string)
    ensures CacheFile(cookieDir, "http", "sa.com", digest) == CacheFile(cookieDir, "https", "a.com", digest)
  {
    assert "http" + "sa.com" == "https" + "a.com";
  }

  /**
   * `createFile`: when the file's directory is missing, make it and then
   * touch the file, recording error 9001 for each step that fails (the file
   * message wins when both fail). When the directory exists nothing is done.
   */
  function CreateFile(s: Store, file: string, allows: string -> bool): (r: Store)
    ensures Dirname(file) in s.disk.dirs ==> r == s
    ensures r.disk.dirs == s.disk.dirs || r.disk.dirs == s.disk.dirs + {Dirname(file)}
    ensures forall f :: f != file ==> (f in r.disk.files <==> f in s.disk.files)
    ensures forall f :: f in s.disk.files ==> f in r.disk.files && r.disk.files[f] == s.disk.files[f]
    ensures Dirname(file) !in s.disk.dirs
            ==> (file in r.disk.files <==> file in s.disk.files || (allows(Dirname(file)) && allows(file)))
    ensures Dirname(file) !in s.disk.dirs ==> (Dirname(file) in r.disk.dirs <==> allows(Dirname(file)))
    ensures r.errorNum == s.errorNum || r.errorNum == ErrorCreateFile
    ensures Dirname(file) !in s.disk.dirs && allows(Dirname(file)) && allows(file)
            ==> r.errorNum == s.errorNum && r.errorMessage == s.errorMessage
    ensures Dirname(file) !in s.disk.dirs && !(allows(Dirname(file)) && allows(file))
            ==> r.errorNum == ErrorCreateFile && r.errorMessage == TouchMessage(file)
  {
    var dir := Dirname(file);
    if dir in s.disk.dirs then s
    else
      var s1 := if allows(dir) then s.(disk := s.disk.(dirs := s.disk.dirs + {dir}))
                else s.(errorNum := ErrorCreateFile, errorMessage := MkdirMessage(dir));
      if dir in s1.disk.dirs && allows(file) then
        var files := if file in s1.disk.files then s1.disk.files else s1.disk.files[file := EmptyJar];
        s1.(disk := s1.disk.(files := files))
      else
        s1.(errorNum := ErrorCreateFile, errorMessage := TouchMessage(file))
  }

  /** `file_put_contents`: replaces the file when its directory exists and it may be written. */
  function Write(d: Disk, file: string, jar: Jar, allows: string -> bool): (r: Disk)
    ensures r.dirs == d.dirs
    ensures forall f :: f != file ==> Load(r, f) == Load(d, f)
    ensures Dirname(file) in d.dirs && (file in d.files || allows(file)) ==> Load(r, file) == jar
    ensures !(Dirname(file) in d.dirs && (file in d.files || allows(file))) ==> r == d
  {
    if Dirname(file) in d.dirs && (file in d.files || allows(file))
    then d.(files := d.files[file := jar])
    else d
  }

  /** Writing a well-formed jar keeps the disk well-formed. */
  lemma WriteKeepsValid(d: Disk, file: string, jar: Jar, allows: string -> bool)
    requires ValidDisk(d) && ValidJar(jar)
    ensures ValidDisk(Write(d, file, jar, allows))
  {
    var r := Write(d, file, jar, allows);
    forall f | f in r.files ensures ValidJar(r.files[f]) {
      if f != file { assert r.files[f] == d.files[f]; }
    }
    forall f | f in r.files ensures Dirname(f) in r.dirs {
      if f != file { assert f in d.files; }
    }
  }

  /** The file exists, or both its directory and the file itself may be created. */
  predicate Writable(d: Disk, file: string, allows: string -> bool) {
    || file in d.files
    || ((Dirname(file) in d.dirs || allows(Dirname(file))) && allows(file))
  }

  /** `storeCookie`: create the file if it does not exist, then overwrite it with the jar. */
  function StoreCookie(s: Store, file: string, jar: Jar, allows: string -> bool): (r: Store)
    ensures forall f :: f != file ==> Load(r.disk, f) == Load(s.disk, f)
    ensures s.disk.dirs <= r.disk.dirs
    ensures r.errorNum == s.errorNum || r.errorNum == ErrorCreateFile
    ensures file in s.disk.files ==> r.errorNum == s.errorNum && r.errorMessage == s.errorMessage
  {
    var s1 := if file in s.disk.files then s else CreateFile(s, file, allows);
    s1.(disk := Write(s1.disk, file, jar, allows))
  }

  /**
   * A stored jar loads back unchanged when the file is writable, and no
   * other cache file changes.
   */
  lemma StoreRoundTrip(s: Store, file: string, jar: Jar, allows: string -> bool)
    requires ValidDisk(s.disk)
    requires Writable(s.disk, file, allows)
    ensures var r := StoreCookie(s, file, jar, allows);
            && Load(r.disk, file) == jar
            && (forall f :: f != file ==> Load(r.disk, f) == Load(s.disk, f))
  {
  }

  /**
   * When the file cannot be written the jar is lost: nothing on disk
   * changes, and error 9001 is recorded only if the directory was missing
   * (with the directory in place, the failed write goes unreported).
   */
  lemma StoreFailure(s: Store, file: string, jar: Jar, allows: string -> bool)
    requires ValidDisk(s.disk)
    requires !Writable(s.disk, file, allows)
    ensures var r := StoreCookie(s, file, jar, allows);
            && r.disk.files == s.disk.files
            && (Dirname(file) !in s.disk.dirs ==> r.errorNum == ErrorCreateFile)
            && (Dirname(file) in s.disk.dirs ==> r == s)
  {
  }

  /** Storing a well-formed jar keeps the disk well-formed. */
  lemma StoreKeepsValid(s: Store, file: string, jar: Jar, allows: string -> bool)
    requires ValidDisk(s.disk) && ValidJar(jar)
    ensures ValidDisk(StoreCookie(s, file, jar, allows).disk)
  {
    var s1 := if file in s.disk.files then s else CreateFile(s, file, allows);
    assert ValidDisk(s1.disk) by {
      forall f | f in s1.disk.files
        ensures Dirname(f) in s1.disk.dirs && ValidJar(s1.disk.files[f])
      {
        if f != file || file in s.disk.files {
          assert f in s.disk.files;
        }
      }
    }
  }

  /**
   * `headerFunction`'s effect: a line starting with `Set-Cookie:` is
   * parsed, filed under its name in the stored jar, and the jar is written
   * back; any other line leaves everything as it was.
   */
  function HeaderStep(s: Store, file: string, requestPath: string, line: string,
                      allows: string -> bool): (r: Store)
    ensures forall f :: f != file ==> Load(r.disk, f) == Load(s.disk, f)
    ensures s.disk.dirs <= r.disk.dirs
    ensures r.errorNum == s.errorNum || r.errorNum == ErrorCreateFile
  {
    if IsSetCookie(line) then
      var c := ParsedCookie(line, requestPath);
      StoreCookie(s, file, Put(Load(s.disk, file), KeyOf(c), c), allows)
    else s
  }

  /** The hook run over the header lines of one response, in order. */
  function AfterHeaders(s: Store, file: string, requestPath: string, lines: seq<string>,
                        allows: string -> bool): Store
    decreases |lines|
  {
    if lines == [] then s
    else AfterHeaders(HeaderStep(s, file, requestPath, lines[0], allows), file, requestPath, lines[1..], allows)
  }

  /** Only `Set-Cookie:` lines change anything. */
  lemma OtherHeadersIgnored(s: Store, file: string, requestPath: string, line: string, allows: string -> bool)
    requires !IsSetCookie(line)
    ensures HeaderStep(s, file, requestPath, line, allows) == s
  {
  }

  /**
   * A `Set-Cookie:` line on a writable cache file replaces exactly the
   * stored record under its parsed name; other names and other files are
   * untouched.
   */
  lemma SetCookieUpdatesOneEntry(s: Store, file: string, requestPath: string, line: string,
                                 allows: string -> bool)
    requires ValidDisk(s.disk)
    requires IsSetCookie(line) && Writable(s.disk, file, allows)
    ensures var c := ParsedCookie(line, requestPath);
            var r := HeaderStep(s, file, requestPath, line, allows);
            && Load(r.disk, file) == Put(Load(s.disk, file), KeyOf(c), c)
            && Lookup(Load(r.disk, file), KeyOf(c)) == Some(c)
            && (forall m :: m != KeyOf(c) ==> Lookup(Load(r.disk, file), m) == Lookup(Load(s.disk, file), m))
            && (forall f :: f != file ==> Load(r.disk, f) == Load(s.disk, f))
            && file in r.disk.files && ValidDisk(r.disk)
  {
    var c := ParsedCookie(line, requestPath);
    var jar := Put(Load(s.disk, file), KeyOf(c), c);
    StoreRoundTrip(s, file, jar, allows);
    assert ValidJar(Load(s.disk, file));
    StoreKeepsValid(s, file, jar, allows);
  }

  /**
   * Two `Set-Cookie:` lines whose records carry the same name leave one
   * record under that name: the later one.
   */
  lemma LaterSetCookieWins(s: Store, file: string, requestPath: string,
                           line1: string, line2: string, allows: string -> bool)
    requires ValidDisk(s.disk)
    requires IsSetCookie(line1) && IsSetCookie(line2) && Writable(s.disk, file, allows)
    requires KeyOf(ParsedCookie(line1, requestPath)) == KeyOf(ParsedCookie(line2, requestPath))
    ensures var r := AfterHeaders(s, file, requestPath, [line1, line2], allows);
            var name := KeyOf(ParsedCookie(line2, requestPath));
            && Lookup(Load(r.disk, file), name) == Some(ParsedCookie(line2, requestPath))
            && |Load(r.disk, file).names| <= |Load(s.disk, file).names| + 1
  {
    var s1 := HeaderStep(s, file, requestPath, line1, allows);
    var s2 := HeaderStep(s1, file, requestPath, line2, allows);
    AfterTwoHeaders(s, file, requestPath, line1, line2, allows);
    SetCookieUpdatesOneEntry(s, file, requestPath, line1, allows);
    SetCookieUpdatesOneEntry(s1, file, requestPath, line2, allows);
    var name := KeyOf(ParsedCookie(line2, requestPath));
    var j0, j1, j2 := Load(s.disk, file), Load(s1.disk, file), Load(s2.disk, file);
    assert ValidJar(j0) && ValidJar(j1);
    assert j1 == Put(j0, name, ParsedCookie(line1, requestPath));
    assert j2 == Put(j1, name, ParsedCookie(line2, requestPath));
    assert name in j1.cookies;
  }

  /** The hook over two lines is one step after the other. */
  lemma AfterTwoHeaders(s: Store, file: string, requestPath: string,
                        line1: string, line2: string, allows: string -> bool)
    ensures AfterHeaders(s, file, requestPath, [line1, line2], allows)
         == HeaderStep(HeaderStep(s, file, requestPath, line1, allows), file, requestPath, line2, allows)
  {
    var s1 := HeaderStep(s, file, requestPath, line1, allows);
    assert [line1, line2][1..] == [line2];
    assert AfterHeaders(s1, file, requestPath, [line2], allows)
        == AfterHeaders(HeaderStep(s1, file, requestPath, line2, allows), file, requestPath, [], allows);
  }

  /** The header hook keeps the disk well-formed. */
  lemma {:induction false} AfterHeadersKeepsValid(s: Store, file: string, requestPath: string,
                                                  lines: seq<string>, allows: string -> bool)
    requires ValidDisk(s.disk)
    ensures ValidDisk(AfterHeaders(s, file, requestPath, lines, allows).disk)
    decreases |lines|
  {
    if lines != [] {
      if IsSetCookie(lines[0]) {
        var c := ParsedCookie(lines[0], requestPath);
        StoreKeepsValid(s, file, Put(Load(s.disk, file), KeyOf(c), c), allows);
      }
      AfterHeadersKeepsValid(HeaderStep(s, file, requestPath, lines[0], allows), file, requestPath, lines[1..], allows);
    }
  }
}
