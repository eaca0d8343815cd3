/** A plain reader for the URLs the previews build: a fragment, from the
    first `#` on, is dropped (section 3.5 of RFC 3986); the endpoint is the
    text before the first `?`, and the query after it is split on `&` into
    `key=value` parameters, each cut at its first `=`. The reader does not
    percent-decode; it is the reference against which the URL builders of
    both previews are stated. */
module Query {
  import opened Wrappers

  /** `s` cut at the first occurrence of `sep`: the text before it, and the
      text after it when `sep` occurs at all. */
  function Cut(s: string, sep: char): (r: (string, Option<string>))
    ensures sep !in r.0
    ensures r.1.None? ==> r.0 == s
    ensures r.1.Some? ==> s == r.0 + [sep] + r.1.value
    decreases |s|
  {
    if s == [] then ("", None)
    else if s[0] == sep then ("", Some(s[1..]))
    else
      var rest := Cut(s[1..], sep);
      ([s[0]] + rest.0, rest.1)
  }

  /** Cutting at the first `sep` finds the first one. */
  lemma {:induction false} CutFirst(a: string, b: string, sep: char)
    requires sep !in a
    ensures Cut(a + [sep] + b, sep) == (a, Some(b))
    decreases |a|
  {
    var s := a + [sep] + b;
    if a == [] {
      assert s[0] == sep && s[1..] == b;
    } else {
      assert s[0] == a[0] && s[0] != sep;
      assert s[1..] == a[1..] + [sep] + b;
      CutFirst(a[1..], b, sep);
      assert [a[0]] + a[1..] == a;
    }
  }

  /** The pieces of `s` between the occurrences of `sep`. */
  function Split(s: string, sep: char): (parts: seq<string>)
    ensures |parts| >= 1
    ensures forall i :: 0 <= i < |parts| ==> sep !in parts[i]
    ensures Join(parts, sep) == s
    decreases |s|
  {
    var (head, tail) := Cut(s, sep);
    if tail.None? then [head]
    else
      var rest := Split(tail.value, sep);
      assert ([head] + rest)[1..] == rest;
      [head] + rest
  }

  /** The pieces put back together with `sep` between neighbours. */
  function Join(parts: seq<string>, sep: char): string
  {
    if |parts| == 0 then ""
    else if |parts| == 1 then parts[0]
    else parts[0] + [sep] + Join(parts[1..], sep)
  }

  /** Splitting at a first separator peels off the piece before it. */
  lemma {:induction false} SplitAt(a: string, b: string, sep: char)
    requires sep !in a
    ensures Split(a + [sep] + b, sep) == [a] + Split(b, sep)
  {
    CutFirst(a, b, sep);
  }

  /** A text without the separator is one piece. */
  lemma SplitWhole(a: string, sep: char)
    requires sep !in a
    ensures Split(a, sep) == [a]
  {
  }

  datatype Param = Param(key: string, value: string)

  /** One `key=value` piece; a piece without `=` is a key with an empty value. */
  function ParseParam(p: string): (q: Param)
    ensures '=' !in q.key
  {
    var (k, v) := Cut(p, '=');
    Param(k, if v.Some? then v.value else "")
  }

  function ParseParams(parts: seq<string>): (ps: seq<Param>)
    ensures |ps| == |parts|
  {
    if parts == [] then [] else [ParseParam(parts[0])] + ParseParams(parts[1..])
  }

  /** A URL without its fragment: the text before the first `#`. */
  function Unfragmented(url: string): (u: string)
    ensures '#' !in u
  {
    Cut(url, '#').0
  }

  /** The path part of a URL. */
  function Endpoint(url: string): string
  {
    Cut(Unfragmented(url), '?').0
  }

  /** The query parameters of a URL, in order; none when there is no `?`. */
  function Params(url: string): seq<Param>
  {
    var (_, query) := Cut(Unfragmented(url), '?');
    if query.None? then [] else ParseParams(Split(query.value, '&'))
  }

  /** A text without `sep` is not cut. */
  lemma CutAbsent(s: string, sep: char)
    requires sep !in s
    ensures Cut(s, sep) == (s, None)
  {
  }

  /** Whatever follows the first `#` does not change how a URL reads. */
  lemma FragmentIgnored(url: string, fragment: string)
    requires '#' !in url
    ensures Unfragmented(url + "#" + fragment) == url
    ensures Endpoint(url + "#" + fragment) == Endpoint(url)
    ensures Params(url + "#" + fragment) == Params(url)
  {
    assert url + "#" + fragment == url + ['#'] + fragment;
    CutFirst(url, fragment, '#');
    CutAbsent(url, '#');
  }

  /** A key without `=` reads back with its value, whatever the value holds. */
  lemma ReadParam(key: string, value: string)
    requires '=' !in key
    ensures ParseParam(key + "=" + value) == Param(key, value)
  {
    assert key + "=" + value == key + ['='] + value;
    CutFirst(key, value, '=');
  }

  /** An endpoint without `?` followed by a query reads back as that endpoint
      and the parameters of that query. */
  lemma ReadUrl(endpoint: string, query: string)
    requires '?' !in endpoint && '#' !in endpoint && '#' !in query
    ensures Endpoint(endpoint + "?" + query) == endpoint
    ensures Params(endpoint + "?" + query) == ParseParams(Split(query, '&'))
  {
    var url := endpoint + "?" + query;
    assert url == endpoint + ['?'] + query;
    CutAbsent(url, '#');
    CutFirst(endpoint, query, '?');
  }

  /** The `key=value` pieces of a parameter list. */
  function Pieces(ps: seq<Param>): (pieces: seq<string>)
    ensures |pieces| == |ps|
    ensures forall i :: 0 <= i < |ps| ==> pieces[i] == ps[i].key + "=" + ps[i].value
  {
    if ps == [] then [] else [ps[0].key + "=" + ps[0].value] + Pieces(ps[1..])
  }

  /** A parameter list written as a query: pieces joined with `&`. */
  function Render(ps: seq<Param>): string
  {
    Join(Pieces(ps), '&')
  }

  lemma RenderOne(p: Param)
    ensures Render([p]) == p.key + "=" + p.value
  {
  }

  lemma RenderCons(p: Param, ps: seq<Param>)
    requires ps != []
    ensures Render([p] + ps) == p.key + "=" + p.value + "&" + Render(ps)
  {
    assert Pieces([p] + ps) == [p.key + "=" + p.value] + Pieces(ps);
  }

  /** A parameter can be written and read back unambiguously. */
  predicate Plain(p: Param)
  {
    '=' !in p.key && '&' !in p.key && '&' !in p.value &&
    '#' !in p.key && '#' !in p.value
  }

  /** Joining keeps out a character that no piece holds and that is not the
      separator. */
  lemma {:induction false} JoinAvoids(parts: seq<string>, sep: char, c: char)
    requires c != sep
    requires forall i :: 0 <= i < |parts| ==> c !in parts[i]
    ensures c !in Join(parts, sep)
    decreases |parts|
  {
    if |parts| > 1 {
      var rest := parts[1..];
      assert forall i :: 0 <= i < |rest| ==> rest[i] == parts[i + 1];
      JoinAvoids(rest, sep, c);
    }
  }

  /** Splitting what was joined gives back the pieces, when no piece holds
      the separator. */
  lemma {:induction false} SplitJoin(parts: seq<string>, sep: char)
    requires |parts| >= 1
    requires forall i :: 0 <= i < |parts| ==> sep !in parts[i]
    ensures Split(Join(parts, sep), sep) == parts
    decreases |parts|
  {
    if |parts| == 1 {
      SplitWhole(parts[0], sep);
    } else {
      var rest := parts[1..];
      assert forall i :: 0 <= i < |rest| ==> rest[i] == parts[i + 1];
      SplitJoin(rest, sep);
      SplitAt(parts[0], Join(rest, sep), sep);
      assert [parts[0]] + rest == parts;
    }
  }

  /** Reading the pieces of plain parameters gives back the parameters. */
  lemma {:induction false} ParsePieces(ps: seq<Param>)
    requires forall i :: 0 <= i < |ps| ==> Plain(ps[i])
    ensures ParseParams(Pieces(ps)) == ps
    decreases |ps|
  {
    if ps != [] {
      var rest := ps[1..];
      assert '=' !in ps[0].key by { assert Plain(ps[0]); }
      ReadParam(ps[0].key, ps[0].value);
      assert forall i :: 0 <= i < |rest| ==> Plain(rest[i]) by {
        forall i | 0 <= i < |rest| ensures Plain(rest[i]) {
          assert rest[i] == ps[i + 1];
        }
      }
      assert Pieces(ps) == [ps[0].key + "=" + ps[0].value] + Pieces(rest);
      ParsePieces(rest);
      assert [ps[0]] + rest == ps;
    }
  }

  /** A URL built from an endpoint without `?` and a non-empty list of plain
      parameters reads back as that endpoint and exactly those parameters. */
  lemma ReadRendered(endpoint: string, ps: seq<Param>)
    requires '?' !in endpoint && '#' !in endpoint
    requires |ps| >= 1
    requires forall i :: 0 <= i < |ps| ==> Plain(ps[i])
    ensures Endpoint(endpoint + "?" + Render(ps)) == endpoint
    ensures Params(endpoint + "?" + Render(ps)) == ps
  {
    var pieces := Pieces(ps);
    forall i | 0 <= i < |pieces| ensures '&' !in pieces[i] && '#' !in pieces[i] {
      assert pieces[i] == ps[i].key + ['='] + ps[i].value;
    }
    JoinAvoids(pieces, '&', '#');
    ReadUrl(endpoint, Render(ps));
    SplitJoin(pieces, '&');
    ParsePieces(ps);
  }
}
