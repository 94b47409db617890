/**
 * The PHP string built-ins the client relies on: `empty()` on strings,
 * `explode`, `implode`, `trim`/`rtrim`, `dirname` (POSIX flavour) and
 * `str_replace` of one character. Strings are sequences of characters, one
 * character per byte of the PHP string.
 */
module PhpStrings {

  /** PHP's `empty()` (and falsiness) of a string: "" and "0" are both empty. */
  predicate PhpEmpty(s: string) {
    s == "" || s == "0"
  }

  /** The characters `trim()` strips when given no character list. */
  const Whitespace: set<char> := {' ', '\t', '\n', '\r', '\0', '\U{B}'}

  /** `ltrim(s, cs)`: drops the longest prefix made only of characters in `cs`. */
  function TrimLeft(s: string, cs: set<char>): (r: string)
    ensures |r| <= |s| && r == s[|s| - |r|..]
    ensures r == [] || r[0] !in cs
    ensures forall i :: 0 <= i < |s| - |r| ==> s[i] in cs
    decreases |s|
  {
    if |s| > 0 && s[0] in cs then TrimLeft(s[1..], cs) else s
  }

  /** `rtrim(s, cs)`: drops the longest suffix made only of characters in `cs`. */
  function TrimRight(s: string, cs: set<char>): (r: string)
    ensures r <= s
    ensures r == [] || r[|r| - 1] !in cs
    ensures forall i :: |r| <= i < |s| ==> s[i] in cs
    decreases |s|
  {
    if |s| > 0 && s[|s| - 1] in cs then TrimRight(s[..|s| - 1], cs) else s
  }

  /** `trim(s, cs)`: both ends. */
  function TrimBoth(s: string, cs: set<char>): string {
    TrimRight(TrimLeft(s, cs), cs)
  }

  /** `trim(s)` with PHP's default character list. */
  function Trim(s: string): string {
    TrimBoth(s, Whitespace)
  }

  /** A string that starts with a character outside `cs` is left alone by `ltrim`. */
  lemma TrimLeftKeeps(s: string, cs: set<char>)
    requires s != [] && s[0] !in cs
    ensures TrimLeft(s, cs) == s
  {
  }

  /**
   * `rtrim` removes exactly one trailing character from `t + [c]` when `c`
   * is in `cs` and `t` ends in a character that is not.
   */
  lemma {:induction false} TrimRightOne(t: string, c: char, cs: set<char>)
    requires c in cs && t != [] && t[|t| - 1] !in cs
    ensures TrimRight(t + [c], cs) == t
  {
    assert (t + [c])[..|t + [c]| - 1] == t;
  }

  /**
   * `explode(d, s)` for a one-character delimiter: the pieces of `s` between
   * occurrences of `d`, always at least one (so `explode` of "" is [""]).
   */
  function Split(s: string, d: char): (r: seq<string>)
    ensures |r| >= 1
    ensures forall i :: 0 <= i < |r| ==> d !in r[i]
    decreases |s|
  {
    if s == [] then [[]]
    else
      var rest := Split(s[1..], d);
      if s[0] == d then [[]] + rest
      else [[s[0]] + rest[0]] + rest[1..]
  }

  /** `implode(sep, parts)`. */
  function Join(parts: seq<string>, sep: string): string
    decreases |parts|
  {
    if |parts| == 0 then []
    else if |parts| == 1 then parts[0]
    else parts[0] + sep + Join(parts[1..], sep)
  }

  /** A string without the delimiter is a single piece. */
  lemma {:induction false} SplitNoDelimiter(s: string, d: char)
    requires d !in s
    ensures Split(s, d) == [s]
    decreases |s|
  {
    if s != [] {
      SplitNoDelimiter(s[1..], d);
      assert [s[0]] + s[1..] == s;
    }
  }

  /**
   * The first piece is everything before the first delimiter; the rest is
   * the split of what follows it.
   */
  lemma {:induction false} SplitAtFirst(a: string, d: char, b: string)
    requires d !in a
    ensures Split(a + [d] + b, d) == [a] + Split(b, d)
    decreases |a|
  {
    var s := a + [d] + b;
    if a == [] {
      assert s[1..] == b;
    } else {
      assert s[1..] == a[1..] + [d] + b;
      SplitAtFirst(a[1..], d, b);
      assert [a[0]] + a[1..] == a;
    }
  }

  /** Joining the pieces with the delimiter gives the string back. */
  lemma {:induction false} JoinSplit(s: string, d: char)
    ensures Join(Split(s, d), [d]) == s
    decreases |s|
  {
    if s != [] {
      var rest := Split(s[1..], d);
      JoinSplit(s[1..], d);
      if s[0] == d {
        assert Join([[]] + rest, [d]) == [] + [d] + Join(rest, [d]);
      } else {
        var r := Split(s, d);
        if |rest| == 1 {
          assert Join(r, [d]) == [s[0]] + rest[0];
        } else {
          assert r[1..] == rest[1..];
          assert Join(rest, [d]) == rest[0] + [d] + Join(rest[1..], [d]);
          assert Join(r, [d]) == ([s[0]] + rest[0]) + [d] + Join(rest[1..], [d]);
        }
        assert [s[0]] + s[1..] == s;
      }
    }
  }

  /** Splitting a join of delimiter-free pieces gives the pieces back. */
  lemma {:induction false} SplitJoin(parts: seq<string>, d: char)
    requires |parts| >= 1
    requires forall i :: 0 <= i < |parts| ==> d !in parts[i]
    ensures Split(Join(parts, [d]), d) == parts
    decreases |parts|
  {
    if |parts| == 1 {
      SplitNoDelimiter(parts[0], d);
    } else {
      SplitJoin(parts[1..], d);
      SplitAtFirst(parts[0], d, Join(parts[1..], [d]));
      assert parts[0] + [d] + Join(parts[1..], [d]) == Join(parts, [d]);
      assert [parts[0]] + parts[1..] == parts;
    }
  }

  /** `str_replace(from, to, s)` for single characters. */
  function ReplaceChar(s: string, from: char, to: char): (r: string)
    ensures |r| == |s|
    ensures forall i :: 0 <= i < |s| ==> r[i] == (if s[i] == from then to else s[i])
  {
    seq(|s|, i requires 0 <= i < |s| => if s[i] == from then to else s[i])
  }

  /** Drops the trailing characters up to, not including, the last '/'. */
  function StripBasename(s: string): (r: string)
    ensures r <= s
    ensures r == [] || r[|r| - 1] == '/'
    ensures forall i :: |r| <= i < |s| ==> s[i] != '/'
    decreases |s|
  {
    if |s| > 0 && s[|s| - 1] != '/' then StripBasename(s[..|s| - 1]) else s
  }

  /**
   * PHP's `dirname(p)` on a POSIX system (where only '/' separates): strip
   * trailing slashes, strip the last name, strip the slashes before it; a
   * path without a slash gives ".", a path of slashes only gives "/", and
   * the empty path gives "".
   */
  function Dirname(p: string): (r: string)
    ensures p == "" <==> r == ""
    ensures r == "" || r == "." || r == "/" || (r <= p && r[|r| - 1] != '/')
    ensures p != "" && p[0] == '/' ==> r != "" && r[0] == '/'
  {
    if p == "" then ""
    else
      var a := TrimRight(p, {'/'});
      if a == "" then "/"
      else
        var b := StripBasename(a);
        if b == "" then "."
        else
          var c := TrimRight(b, {'/'});
          if c == "" then "/" else c
  }

  /**
   * The directory of `dir + "/" + name` is `dir`, for a directory that does
   * not end in '/' and a name without '/'.
   */
  lemma DirnameOfChild(dir: string, name: string)
    requires dir != [] && dir[|dir| - 1] != '/'
    requires name != [] && '/' !in name
    ensures Dirname(dir + "/" + name) == dir
  {
    var p := dir + "/" + name;
    assert TrimRight(p, {'/'}) == p by {
      assert p[|p| - 1] == name[|name| - 1];
    }
    assert StripBasename(p) == dir + "/" by {
      StripBasenameOfName(dir + "/", name);
    }
    TrimRightOne(dir, '/', {'/'});
  }

  /** The directory of a name directly under the root is the root. */
  lemma DirnameOfRootChild(name: string)
    requires name != [] && '/' !in name
    ensures Dirname("/" + name) == "/"
  {
    var p := "/" + name;
    assert p[|p| - 1] == name[|name| - 1];
    StripBasenameOfName("/", name);
    assert TrimRight("/", {'/'}) == "";
  }

  /** Only the trailing name is dropped. */
  lemma {:induction false} StripBasenameOfName(dir: string, name: string)
    requires dir != [] && dir[|dir| - 1] == '/'
    requires '/' !in name
    ensures StripBasename(dir + name) == dir
    decreases |name|
  {
    if name == [] {
      assert dir + name == dir;
    } else {
      var s := dir + name;
      assert s[|s| - 1] == name[|name| - 1];
      assert s[..|s| - 1] == dir + name[..|name| - 1];
      StripBasenameOfName(dir, name[..|name| - 1]);
    }
  }

  /** Trailing slashes of a path do not change its directory. */
  lemma DirnameIgnoresTrailingSlash(p: string)
    requires p != ""
    ensures Dirname(p + "/") == Dirname(p)
  {
    var q := p + "/";
    assert q[..|q| - 1] == p;
    assert TrimRight(q, {'/'}) == TrimRight(p, {'/'});
  }

  /** The number a string of decimal digits denotes, most significant digit first. */
  function DigitsValue(r: string): int
    decreases |r|
  {
    if r == [] then 0 else DigitsValue(r[..|r| - 1]) * 10 + (r[|r| - 1] as int - '0' as int)
  }

  /** Decimal digits of a natural number, as PHP prints an integer. */
  function NatToString(n: nat): (r: string)
    ensures |r| >= 1
    ensures forall i :: 0 <= i < |r| ==> '0' <= r[i] <= '9'
    ensures n > 0 ==> r[0] != '0'
    ensures DigitsValue(r) == n
  {
    var digit := ['0' + (n % 10) as char];
    if n < 10 then digit
    else
      var rest := NatToString(n / 10);
      assert (rest + digit)[..|rest|] == rest;
      rest + digit
  }
}
