/**
 * `setUrlParam`: puts request parameters on a URL. The URL is taken apart
 * by `parse_url` (not modelled: its result is the input here) and put back
 * together component by component in the order of section 5.3 of RFC 3986,
 * with the new parameters after any query already there.
 */
module UrlParams {
  import opened Wrappers
  import opened PhpStrings

  /** The components `parse_url` reports; absent ones are `None`. */
  datatype UrlInfo = UrlInfo(scheme: Option<string>, user: Option<string>, pass: Option<string>,
                             host: Option<string>, port: Option<nat>, path: Option<string>,
                             query: Option<string>, fragment: Option<string>)

  /** What `parse_url` gives for a URL it cannot read, and what the client starts with. */
  const NoUrlInfo: UrlInfo := UrlInfo(None, None, None, None, None, None, None, None)

  /** The parameters: an array of `name => value`, or a string used as it is. */
  datatype Param = Pairs(pairs: seq<(string, string)>) | Raw(text: string)

  /** `!empty($uinfo[...])` for a string component. */
  predicate Present(o: Option<string>) {
    o.Some? && !PhpEmpty(o.value)
  }

  /** `"{$k}=" . urlencode($v)` for one pair. */
  function Piece(pair: (string, string), urlencode: string -> string): string {
    pair.0 + "=" + urlencode(pair.1)
  }

  /** Each pair's piece followed by '&', one after the other. */
  function PairsText(pairs: seq<(string, string)>, urlencode: string -> string): string
    decreases |pairs|
  {
    if pairs == [] then ""
    else PairsText(pairs[..|pairs| - 1], urlencode) + (Piece(pairs[|pairs| - 1], urlencode) + "&")
  }

  /** The parameter string: pairs with '&' trimmed from both ends, or the raw string. */
  function ParamString(param: Param, urlencode: string -> string): (r: string)
    ensures param.Pairs? && r != [] ==> r[0] != '&' && r[|r| - 1] != '&'
    ensures param.Pairs? ==> r <= TrimLeft(PairsText(param.pairs, urlencode), {'&'})
    ensures param.Raw? ==> r == param.text
  {
    match param
    case Pairs(ps) =>
      var left := TrimLeft(PairsText(ps, urlencode), {'&'});
      TrimRight(left, {'&'})
    case Raw(t) => t
  }

  /** Builds the parameter string the way `setUrlParam` accumulates it. */
  method BuildParamString(param: Param, urlencode: string -> string) returns (p: string)
    ensures p == ParamString(param, urlencode)
  {
    p := "";
    match param
    case Pairs(ps) =>
      for i := 0 to |ps|
        invariant p == PairsText(ps[..i], urlencode)
      {
        var (k, v) := ps[i];
        p := p + (k + "=" + urlencode(v) + "&");
        assert ps[..i + 1][..i] == ps[..i];
      }
      assert ps[..|ps|] == ps;
      p := TrimBoth(p, {'&'});
    case Raw(t) =>
      p := p + t;
  }

  /** The `name=value` pieces of a pair list. */
  function Pieces(pairs: seq<(string, string)>, urlencode: string -> string): (r: seq<string>)
    ensures |r| == |pairs|
    ensures forall i :: 0 <= i < |pairs| ==> r[i] == Piece(pairs[i], urlencode)
  {
    seq(|pairs|, i requires 0 <= i < |pairs| => Piece(pairs[i], urlencode))
  }

  /** Joining one more part at the end. */
  lemma {:induction false} JoinSnoc(parts: seq<string>, x: string, sep: string)
    requires parts != []
    ensures Join(parts + [x], sep) == Join(parts, sep) + sep + x
    decreases |parts|
  {
    if |parts| == 1 {
      assert parts + [x] == [parts[0], x];
      assert [parts[0], x][1..] == [x];
    } else {
      JoinSnoc(parts[1..], x, sep);
      assert (parts + [x])[1..] == parts[1..] + [x];
    }
  }

  /** Before trimming, the pair text is the pieces joined by '&' with one more '&'. */
  lemma {:induction false} PairsTextIsJoin(pairs: seq<(string, string)>, urlencode: string -> string)
    requires pairs != []
    ensures PairsText(pairs, urlencode) == Join(Pieces(pairs, urlencode), "&") + "&"
    decreases |pairs|
  {
    var init := pairs[..|pairs| - 1];
    var piece := Piece(pairs[|pairs| - 1], urlencode);
    assert Pieces(pairs, urlencode) == Pieces(init, urlencode) + [piece];
    if init == [] {
      assert Pieces(pairs, urlencode) == [piece];
    } else {
      PairsTextIsJoin(init, urlencode);
      var joined := Join(Pieces(init, urlencode), "&");
      JoinSnoc(Pieces(init, urlencode), piece, "&");
      assert (joined + "&") + (piece + "&") == (joined + "&" + piece) + "&";
    }
  }

  /**
   * When no name contains '&' and no encoded value does, the array form is
   * exactly the pairs `name=urlencode(value)` joined by '&'.
   */
  lemma ParamStringOfPairs(pairs: seq<(string, string)>, urlencode: string -> string)
    requires pairs != []
    requires forall i :: 0 <= i < |pairs| ==> '&' !in pairs[i].0 && '&' !in urlencode(pairs[i].1)
    ensures ParamString(Pairs(pairs), urlencode) == Join(Pieces(pairs, urlencode), "&")
  {
    PairsTextIsJoin(pairs, urlencode);
    var joined := Join(Pieces(pairs, urlencode), "&");
    JoinEnds(Pieces(pairs, urlencode), pairs, urlencode);
    TrimLeftKeeps(joined + "&", {'&'});
    TrimRightOne(joined, '&', {'&'});
  }

  /** The joined pieces start and end with a character other than '&'. */
  lemma JoinEnds(parts: seq<string>, pairs: seq<(string, string)>, urlencode: string -> string)
    requires pairs != [] && parts == Pieces(pairs, urlencode)
    requires forall i :: 0 <= i < |pairs| ==> '&' !in pairs[i].0 && '&' !in urlencode(pairs[i].1)
    ensures Join(parts, "&") != [] && Join(parts, "&")[0] != '&'
    ensures Join(parts, "&")[|Join(parts, "&")| - 1] != '&'
  {
    var first := parts[0];
    assert first == Piece(pairs[0], urlencode);
    assert first[0] != '&' by {
      if pairs[0].0 != [] { assert first[0] == pairs[0].0[0]; } else { assert first[0] == '='; }
    }
    var k := |pairs| - 1;
    var last := parts[k];
    assert last == Piece(pairs[k], urlencode);
    assert last[|last| - 1] != '&' by {
      var e := urlencode(pairs[k].1);
      if e != [] { assert last[|last| - 1] == e[|e| - 1]; } else { assert last[|last| - 1] == '='; }
    }
    if |parts| == 1 {
    } else {
      JoinSnoc(parts[..k], last, "&");
      assert parts[..k] + [last] == parts;
      assert Join(parts, "&") == parts[0] + "&" + Join(parts[1..], "&");
    }
  }

  /** `scheme://` when the scheme is present and not empty. */
  function SchemePart(u: UrlInfo): string {
    if Present(u.scheme) then u.scheme.value + "://" else ""
  }

  /** The host when present and not empty. */
  function HostPart(u: UrlInfo): string {
    if Present(u.host) then u.host.value else ""
  }

  /** `:port` when the port is present and not 0. */
  function PortPart(u: UrlInfo): string {
    if u.port.Some? && u.port.value != 0 then ":" + NatToString(u.port.value) else ""
  }

  /** The path when present and not empty. */
  function PathPart(u: UrlInfo): string {
    if Present(u.path) then u.path.value else ""
  }

  /** Everything before the query: scheme, host, port and path, in that order. */
  function Base(u: UrlInfo): string {
    SchemePart(u) + HostPart(u) + PortPart(u) + PathPart(u)
  }

  /** `#fragment` when present. */
  function FragmentPart(u: UrlInfo): string {
    if Present(u.fragment) then "#" + u.fragment.value else ""
  }

  /** The existing `?query`, then the new parameters after '&' or after '?'. */
  function QueryPart(u: UrlInfo, p: string): string {
    var query := if Present(u.query) then "?" + u.query.value else "";
    if PhpEmpty(p) then query
    else if query != "" then query + "&" + p
    else "?" + p
  }

  /** The URL `setUrlParam` returns for the parameter string `p`. */
  function MergedUrl(u: UrlInfo, p: string): (r: string)
    ensures Base(u) <= r
    ensures Present(u.fragment) ==> |u.fragment.value| < |r| && r[|r| - |u.fragment.value| - 1..] == "#" + u.fragment.value
    ensures PhpEmpty(p) && !Present(u.query) && !Present(u.fragment) ==> r == Base(u)
  {
    Base(u) + QueryPart(u, p) + FragmentPart(u)
  }

  /** Rebuilds the URL with the parameters appended to its query. */
  method SetUrlParam(u: UrlInfo, param: Param, urlencode: string -> string) returns (newUrl: string)
    ensures newUrl == MergedUrl(u, ParamString(param, urlencode))
  {
    var p := BuildParamString(param, urlencode);
    newUrl := MergedUrl(u, p);
  }

  /**
   * New parameters go after an existing query with '&', or start the query
   * with '?'; with no parameters the existing query (if any) is all there is.
   */
  lemma QueryPartCases(u: UrlInfo, p: string)
    ensures !PhpEmpty(p) && Present(u.query) ==> QueryPart(u, p) == "?" + u.query.value + "&" + p
    ensures !PhpEmpty(p) && !Present(u.query) ==> QueryPart(u, p) == "?" + p
    ensures PhpEmpty(p) && Present(u.query) ==> QueryPart(u, p) == "?" + u.query.value
    ensures PhpEmpty(p) && !Present(u.query) ==> QueryPart(u, p) == ""
  {
  }

  /** The existing query is kept, ahead of anything appended. */
  lemma ExistingQueryKept(u: UrlInfo, p: string)
    requires Present(u.query)
    ensures Base(u) + "?" + u.query.value <= MergedUrl(u, p)
  {
    var rest := if PhpEmpty(p) then "" else "&" + p;
    assert QueryPart(u, p) == "?" + u.query.value + rest;
    PrefixOfConcat(Base(u), "?" + u.query.value, rest, FragmentPart(u));
  }

  lemma PrefixOfConcat(a: string, b: string, c: string, d: string)
    ensures a + b <= a + (b + c) + d
  {
    assert a + (b + c) + d == (a + b) + (c + d);
  }

  /** User name and password are dropped: the result does not depend on them. */
  lemma UserInfoDropped(u: UrlInfo, user: Option<string>, pass: Option<string>, p: string)
    ensures MergedUrl(u.(user := user, pass := pass), p) == MergedUrl(u, p)
  {
    var v := u.(user := user, pass := pass);
    assert Base(v) == Base(u);
    assert QueryPart(v, p) == QueryPart(u, p);
    assert FragmentPart(v) == FragmentPart(u);
  }

  /** The array `['y' => '2']` gives the parameter string `y=2`. */
  lemma PairExample(urlencode: string -> string)
    requires urlencode("2") == "2"
    ensures ParamString(Pairs([("y", "2")]), urlencode) == "y=2"
  {
    var ps := [("y", "2")];
    ParamStringOfPairs(ps, urlencode);
    assert Piece(ps[0], urlencode) == "y=2";
    assert Pieces(ps, urlencode) == [Piece(ps[0], urlencode)];
  }

  /** `http://h/p?x=1` with `y=2` gives `http://h/p?x=1&y=2`; without the query, `http://h/p?y=2`. */
  lemma MergeExamples()
    ensures MergedUrl(UrlInfo(Some("http"), None, None, Some("h"), None, Some("/p"), Some("x=1"), None), "y=2")
         == "http://h/p?x=1&y=2"
    ensures MergedUrl(UrlInfo(Some("http"), None, None, Some("h"), None, Some("/p"), None, None), "y=2")
         == "http://h/p?y=2"
  {
    var u := UrlInfo(Some("http"), None, None, Some("h"), None, Some("/p"), Some("x=1"), None);
    assert Base(u) == "http://h/p";
    assert Base(u.(query := None)) == "http://h/p";
  }
}
