/** Cleaning of Spotify identifiers before they are sent to the catalog
    API: a raw id (bare, an open.spotify.com URL or a `spotify:` URI) is
    reduced to a 22-character base62 id, a request parameter is turned into
    a duplicate-free list of such ids, and a list is cut into batches. */
module SpotifyIds {
  import opened Wrappers

  /* ---------------- Characters ---------------- */

  /** Whitespace removed by String.prototype.trim (ASCII and a few Unicode
      separators). */
  predicate IsWhitespace(c: char) {
    c == ' ' || c == '\t' || c == '\n' || c == '\r' || c == '\U{0B}' || c == '\U{0C}' ||
    c == '\U{A0}' || c == '\U{FEFF}' || c == '\U{2028}' || c == '\U{2029}'
  }

  predicate IsAlnum(c: char) {
    ('0' <= c <= '9') || ('A' <= c <= 'Z') || ('a' <= c <= 'z')
  }

  /** Matches /^[0-9A-Za-z]{22}$/. */
  predicate IsBase62Id(s: string) {
    |s| == 22 && forall i :: 0 <= i < |s| ==> IsAlnum(s[i])
  }

  /* ---------------- String steps ---------------- */

  /** Drops leading whitespace. */
  function TrimStart(s: string): (r: string)
    ensures |r| <= |s| && r == s[|s| - |r|..]
    ensures r == [] || !IsWhitespace(r[0])
    ensures forall i :: 0 <= i < |s| - |r| ==> IsWhitespace(s[i])
  {
    if s != [] && IsWhitespace(s[0]) then
      assert forall i :: 1 <= i < |s| ==> s[1..][i - 1] == s[i];
      TrimStart(s[1..])
    else s
  }

  /** Drops trailing whitespace. */
  function TrimEnd(s: string): (r: string)
    ensures |r| <= |s| && r == s[..|r|]
    ensures r == [] || !IsWhitespace(r[|r| - 1])
    ensures forall i :: |r| <= i < |s| ==> IsWhitespace(s[i])
  {
    if s != [] && IsWhitespace(s[|s| - 1]) then TrimEnd(s[..|s| - 1]) else s
  }

  /** String.prototype.trim: whitespace removed at both ends. */
  function Trim(s: string): string {
    TrimEnd(TrimStart(s))
  }

  /** What Trim keeps starts and ends with a non-blank and is the slice of
      its input that starts after the leading whitespace, with only
      whitespace after it. */
  lemma TrimStrips(s: string)
    ensures var r, k := Trim(s), |s| - |TrimStart(s)|;
            (r == [] || (!IsWhitespace(r[0]) && !IsWhitespace(r[|r| - 1]))) &&
            k + |r| <= |s| && r == s[k..][..|r|] &&
            (forall i :: 0 <= i < k ==> IsWhitespace(s[i])) &&
            (forall i :: k + |r| <= i < |s| ==> IsWhitespace(s[i]))
  {
    var t := TrimStart(s);
    var r := TrimEnd(t);
    var k := |s| - |t|;
    assert r == [] || r[0] == t[0];
    assert r == s[k..][..|r|];
    forall i | k + |r| <= i < |s| ensures IsWhitespace(s[i]) {
      assert s[i] == t[i - k];
    }
  }

  /** `s.split(c)[0]`: everything before the first `c`. */
  function BeforeFirst(s: string, c: char): (r: string)
    ensures |r| <= |s| && r == s[..|r|]
    ensures c !in r
    ensures |r| < |s| ==> s[|r|] == c
  {
    if s == [] || s[0] == c then [] else [s[0]] + BeforeFirst(s[1..], c)
  }

  /** `s.split(c).pop()`: everything after the last `c`. */
  function AfterLast(s: string, c: char): (r: string)
    ensures |r| <= |s| && r == s[|s| - |r|..]
    ensures c !in r
    ensures |r| < |s| ==> s[|s| - |r| - 1] == c
  {
    if s == [] || s[|s| - 1] == c then [] else AfterLast(s[..|s| - 1], c) + [s[|s| - 1]]
  }

  /* ---------------- One raw id ---------------- */

  /** Cuts a query string: what precedes the first '?', if there is one. */
  function StripQuery(id: string): (r: string)
    ensures '?' !in r
    ensures |r| <= |id| && r == id[..|r|]
    ensures |r| < |id| ==> id[|r|] == '?'
  {
    if '?' in id then BeforeFirst(id, '?') else id
  }

  /** Keeps the last URL path segment: what follows the last '/', if any. */
  function StripPath(id: string): (r: string)
    ensures '/' !in r
    ensures |r| <= |id| && r == id[|id| - |r|..]
    ensures |r| < |id| ==> id[|id| - |r| - 1] == '/'
  {
    if '/' in id then AfterLast(id, '/') else id
  }

  /** Keeps the last segment of a `spotify:` URI: what follows the last ':'. */
  function StripUriPrefix(id: string): (r: string)
    ensures ':' !in r
    ensures |r| <= |id| && r == id[|id| - |r|..]
    ensures |r| < |id| ==> id[|id| - |r| - 1] == ':'
  {
    if ':' in id then AfterLast(id, ':') else id
  }

  /** Reduces a raw id to a bare 22-character base62 id, or None. A query
      string is cut first, then everything up to the last '/', then
      everything up to the last ':'. A missing or empty input gives None. */
  function NormalizeRawId(raw: Option<string>): (r: Option<string>)
    ensures r.Some? ==> IsBase62Id(r.value)
    ensures raw.None? || raw.value == "" ==> r.None?
  {
    if raw.None? || raw.value == "" then None
    else
      var id := StripUriPrefix(StripPath(StripQuery(Trim(raw.value))));
      if IsBase62Id(id) then Some(id) else None
  }

  lemma TrimUnchanged(s: string)
    requires s == [] || (!IsWhitespace(s[0]) && !IsWhitespace(s[|s| - 1]))
    ensures Trim(s) == s
  {
  }

  predicate AllWhitespace(w: string) {
    forall i :: 0 <= i < |w| ==> IsWhitespace(w[i])
  }

  /** Leading whitespace before a text that starts with a non-blank is
      exactly what TrimStart drops. */
  lemma TrimStartPadded(w: string, t: string, s: string)
    requires AllWhitespace(w) && (t == [] || !IsWhitespace(t[0]))
    requires s == w + t
    ensures TrimStart(s) == t
  {
    var r := TrimStart(s);
    assert forall i :: 0 <= i < |w| ==> s[i] == w[i];
    assert t != [] ==> s[|w|] == t[0];
    assert r != [] ==> r[0] == s[|s| - |r|];
    assert |r| == |t|;
    assert r == s[|w|..];
  }

  /** Trailing whitespace after a text that ends with a non-blank is
      exactly what TrimEnd drops. */
  lemma TrimEndPadded(t: string, w: string, s: string)
    requires AllWhitespace(w) && (t == [] || !IsWhitespace(t[|t| - 1]))
    requires s == t + w
    ensures TrimEnd(s) == t
  {
    var r := TrimEnd(s);
    assert forall i :: |t| <= i < |s| ==> s[i] == w[i - |t|];
    assert t != [] ==> s[|t| - 1] == t[|t| - 1];
    assert r != [] ==> r[|r| - 1] == s[|r| - 1];
    assert |r| == |t|;
    assert r == s[..|t|];
  }

  /** Trim removes whitespace padding on both sides of a text that starts
      and ends with a non-blank. */
  lemma TrimPadded(w1: string, t: string, w2: string, s: string)
    requires AllWhitespace(w1) && AllWhitespace(w2)
    requires t == [] || (!IsWhitespace(t[0]) && !IsWhitespace(t[|t| - 1]))
    requires s == w1 + t + w2
    ensures Trim(s) == t
  {
    if t == [] {
      assert AllWhitespace(w1 + w2);
      TrimStartPadded(w1 + w2, [], s);
    } else {
      TrimStartPadded(w1, t + w2, s);
      TrimEndPadded(t, w2, t + w2);
    }
  }

  /** TrimEnd never drops a non-blank, so it keeps everything up to the
      last non-blank. */
  lemma TrimEndKeeps(s: string, k: nat)
    requires k < |s| && !IsWhitespace(s[k])
    ensures |TrimEnd(s)| > k
  {
  }

  lemma BeforeFirstOf(a: string, c: char, b: string)
    requires c !in a
    ensures BeforeFirst(a + [c] + b, c) == a
  {
    var s := a + [c] + b;
    assert forall i :: 0 <= i < |a| ==> s[i] == a[i];
    assert s[|a|] == c;
  }

  lemma AfterLastOf(a: string, c: char, b: string)
    requires c !in b
    ensures AfterLast(a + [c] + b, c) == b
  {
    var s := a + [c] + b;
    assert s[|a| + 1..] == b;
    assert s[|a|] == c;
  }

  /** A valid bare id comes back unchanged. */
  lemma NormalizeBareId(id: string)
    requires IsBase62Id(id)
    ensures NormalizeRawId(Some(id)) == Some(id)
  {
    assert !IsWhitespace(id[0]) && !IsWhitespace(id[21]);
    TrimUnchanged(id);
    assert '?' !in id && '/' !in id && ':' !in id;
    assert StripQuery(id) == id && StripPath(id) == id && StripUriPrefix(id) == id;
  }

  /** A valid id surrounded by whitespace, as in one piece of `"a, b"`,
      comes back without it. */
  lemma NormalizePaddedId(w1: string, id: string, w2: string, raw: string)
    requires IsBase62Id(id) && AllWhitespace(w1) && AllWhitespace(w2)
    requires raw == w1 + id + w2
    ensures NormalizeRawId(Some(raw)) == Some(id)
  {
    assert IsAlnum(id[0]) && IsAlnum(id[21]);
    TrimPadded(w1, id, w2, raw);
    NoSeparators(id);
    assert StripQuery(id) == id && StripPath(id) == id;
    NormalizeVia(raw, id);
  }

  /** Normalizing is idempotent: a normalized id normalizes to itself. */
  lemma NormalizeIdempotent(raw: Option<string>)
    requires NormalizeRawId(raw).Some?
    ensures NormalizeRawId(Some(NormalizeRawId(raw).value)) == NormalizeRawId(raw)
  {
    NormalizeBareId(NormalizeRawId(raw).value);
  }

  /** A non-empty raw string whose cleaning steps end at a valid id
      normalizes to that id. */
  lemma NormalizeVia(s: string, id: string)
    requires s != [] && IsBase62Id(id)
    requires StripUriPrefix(StripPath(StripQuery(Trim(s)))) == id
    ensures NormalizeRawId(Some(s)) == Some(id)
  {
  }

  /** A valid id has none of the separators the cleaning steps look for. */
  lemma NoSeparators(id: string)
    requires IsBase62Id(id)
    ensures '?' !in id && '/' !in id && ':' !in id
    ensures StripUriPrefix(id) == id
  {
  }

  lemma NotInJoin(c: char, a: string, sep: char, b: string)
    requires c !in a && c != sep && c !in b
    ensures c !in a + [sep] + b
  {
  }

  /** The query string is cut at the first '?'. */
  lemma QueryCut(path: string, query: string)
    requires '?' !in path
    ensures StripQuery(path + "?" + query) == path
  {
    BeforeFirstOf(path, '?', query);
    assert (path + "?" + query)[|path|] == '?';
  }

  /** Everything up to the last '/' is dropped. */
  lemma PathCut(host: string, id: string)
    requires '/' !in id
    ensures StripPath(host + "/" + id) == id
  {
    AfterLastOf(host, '/', id);
    assert (host + "/" + id)[|host|] == '/';
  }

  /** Everything up to the last ':' is dropped. */
  lemma UriCut(host: string, id: string)
    requires ':' !in id
    ensures StripUriPrefix(host + ":" + id) == id
  {
    AfterLastOf(host, ':', id);
    assert (host + ":" + id)[|host|] == ':';
  }

  /** `<origin><kind>/<id>?<query>` reduces to `<id>` for any origin that
      starts with a non-blank and has no '?', whatever the query. */
  lemma NormalizeSlashPath(origin: string, kind: string, id: string, query: string, raw: string)
    requires IsBase62Id(id)
    requires origin != [] && !IsWhitespace(origin[0])
    requires '?' !in origin && '?' !in kind
    requires raw == origin + kind + "/" + id + "?" + query
    ensures NormalizeRawId(Some(raw)) == Some(id)
  {
    var host := origin + kind;
    var path := host + "/" + id;
    NoSeparators(id);
    NotInJoin('?', host, '/', id);
    assert raw[0] == origin[0];
    assert TrimStart(raw) == raw;
    assert raw[|path|] == '?';
    TrimEndKeeps(raw, |path|);
    var t := Trim(raw);
    var kept := t[|path| + 1..];
    assert t == raw[..|t|];
    assert t == path + "?" + kept;
    QueryCut(path, kept);
    PathCut(host, id);
    NormalizeVia(raw, id);
  }

  /** `<origin><kind>/<id>` with no query string reduces to `<id>` for any
      origin that starts with a non-blank and has no '?'. */
  lemma NormalizeBarePath(origin: string, kind: string, id: string, raw: string)
    requires IsBase62Id(id)
    requires origin != [] && !IsWhitespace(origin[0])
    requires '?' !in origin && '?' !in kind
    requires raw == origin + kind + "/" + id
    ensures NormalizeRawId(Some(raw)) == Some(id)
  {
    var host := origin + kind;
    NoSeparators(id);
    NotInJoin('?', host, '/', id);
    assert raw[0] == origin[0];
    assert raw[|raw| - 1] == id[21];
    assert IsAlnum(id[21]);
    TrimUnchanged(raw);
    PathCut(host, id);
    NormalizeVia(raw, id);
  }

  /** `https://open.spotify.com/<kind>/<id>` reduces to `<id>`. */
  lemma NormalizeOpenUrlWithoutQuery(kind: string, id: string, raw: string)
    requires IsBase62Id(id)
    requires '?' !in kind
    requires raw == "https://open.spotify.com/" + kind + "/" + id
    ensures NormalizeRawId(Some(raw)) == Some(id)
  {
    NormalizeBarePath("https://open.spotify.com/", kind, id, raw);
  }

  /** `https://open.spotify.com/<kind>/<id>?<query>` reduces to `<id>`. */
  lemma NormalizeOpenUrl(kind: string, id: string, query: string, raw: string)
    requires IsBase62Id(id)
    requires '?' !in kind
    requires raw == "https://open.spotify.com/" + kind + "/" + id + "?" + query
    ensures NormalizeRawId(Some(raw)) == Some(id)
  {
    NormalizeSlashPath("https://open.spotify.com/", kind, id, query, raw);
  }

  /** `<scheme><kind>:<id>` reduces to `<id>` for any scheme that starts
      with a non-blank and has no '?' or '/'. */
  lemma NormalizeColonPath(scheme: string, kind: string, id: string, raw: string)
    requires IsBase62Id(id)
    requires scheme != [] && !IsWhitespace(scheme[0])
    requires '?' !in scheme && '/' !in scheme && '?' !in kind && '/' !in kind
    requires raw == scheme + kind + ":" + id
    ensures NormalizeRawId(Some(raw)) == Some(id)
  {
    var host := scheme + kind;
    NoSeparators(id);
    NotInJoin('?', host, ':', id);
    NotInJoin('/', host, ':', id);
    assert raw[0] == scheme[0];
    assert raw[|raw| - 1] == id[21];
    assert IsAlnum(id[21]);
    TrimUnchanged(raw);
    UriCut(host, id);
    NormalizeVia(raw, id);
  }

  /** `spotify:<kind>:<id>` reduces to `<id>`. */
  lemma NormalizeUri(kind: string, id: string, raw: string)
    requires IsBase62Id(id)
    requires '?' !in kind && '/' !in kind
    requires raw == "spotify:" + kind + ":" + id
    ensures NormalizeRawId(Some(raw)) == Some(id)
  {
    NormalizeColonPath("spotify:", kind, id, raw);
  }

  /* ---------------- A list of raw ids ---------------- */

  /** `s.split(c)`: the pieces between occurrences of `c`; always at
      least one piece. */
  function SplitOn(s: string, c: char): (r: seq<string>)
    ensures |r| >= 1
    ensures forall k :: 0 <= k < |r| ==> c !in r[k]
    ensures JoinWith(r, c) == s
    decreases |s|
  {
    var head := BeforeFirst(s, c);
    if |head| == |s| then [s]
    else
      var rest := SplitOn(s[|head| + 1..], c);
      assert s == head + [c] + s[|head| + 1..];
      [head] + rest
  }

  /** `pieces.join(c)`. */
  function JoinWith(pieces: seq<string>, c: char): string {
    if pieces == [] then []
    else if |pieces| == 1 then pieces[0]
    else pieces[0] + [c] + JoinWith(pieces[1..], c)
  }

  /** The request parameter: absent, a comma-separated string, or an array
      of raw values (a missing element is None). */
  datatype IdsParam = Missing | Text(text: string) | Items(items: seq<Option<string>>)

  /** The raw values the parameter holds: an array is taken element by
      element, a string is split on commas. */
  function RawList(param: IdsParam): (r: seq<Option<string>>)
    ensures param.Missing? ==> r == []
    ensures param.Items? ==> r == param.items
    ensures param.Text? && param.text != "" ==>
              |r| >= 1 &&
              (forall k :: 0 <= k < |r| ==> r[k].Some? && ',' !in r[k].value) &&
              JoinWith(Present(r), ',') == param.text
  {
    match param
    case Missing => []
    case Text(t) =>
      if t == "" then []
      else
        var pieces := SplitOn(t, ',');
        PresentAll(pieces);
        AsItems(pieces)
    case Items(xs) => xs
  }

  /** `normalizeRawId` applied to every raw value; every id it yields is valid. */
  function NormalizeAll(raws: seq<Option<string>>): (r: seq<Option<string>>)
    ensures |r| == |raws|
    ensures forall k :: 0 <= k < |r| ==> r[k] == NormalizeRawId(raws[k])
    ensures forall k :: 0 <= k < |r| && r[k].Some? ==> IsBase62Id(r[k].value)
  {
    if raws == [] then []
    else NormalizeAll(raws[..|raws| - 1]) + [NormalizeRawId(raws[|raws| - 1])]
  }

  lemma NormalizeAllExtend(raws: seq<Option<string>>, k: nat)
    requires k < |raws|
    ensures NormalizeAll(raws[..k + 1]) == NormalizeAll(raws[..k]) + [NormalizeRawId(raws[k])]
  {
    assert raws[..k + 1][..k] == raws[..k];
    assert raws[..k + 1][k] == raws[k];
  }

  /** The present values of `opts`, in order, duplicates kept. */
  function Present(opts: seq<Option<string>>): (r: seq<string>)
    ensures forall id :: id in r <==> Some(id) in opts
  {
    if opts == [] then []
    else
      var p := opts[..|opts| - 1];
      assert opts == p + [opts[|opts| - 1]];
      Present(p) + (if opts[|opts| - 1].Some? then [opts[|opts| - 1].value] else [])
  }

  lemma PresentExtend(opts: seq<Option<string>>, o: Option<string>)
    ensures Present(opts + [o]) == Present(opts) + (if o.Some? then [o.value] else [])
  {
    assert (opts + [o])[..|opts|] == opts;
  }

  predicate NoDuplicates(s: seq<string>) {
    forall i, j :: 0 <= i < j < |s| ==> s[i] != s[j]
  }

  /** `[...new Set(s)]`: the distinct elements of `s`, each where it first occurs. */
  function Distinct(s: seq<string>): (r: seq<string>)
    ensures NoDuplicates(r)
    ensures forall x :: x in r <==> x in s
  {
    if s == [] then []
    else
      var p := Distinct(s[..|s| - 1]);
      assert forall x :: x in s <==> x in s[..|s| - 1] || x == s[|s| - 1] by {
        assert s == s[..|s| - 1] + [s[|s| - 1]];
      }
      if s[|s| - 1] in p then p else p + [s[|s| - 1]]
  }

  /** Index of the first occurrence of `x` in `s`. */
  function FirstIndex<T(==)>(s: seq<T>, x: T): (i: nat)
    requires x in s
    ensures i < |s| && s[i] == x && x !in s[..i]
  {
    if s[0] == x then 0 else 1 + FirstIndex(s[1..], x)
  }

  lemma FirstIndexPrefix<T>(s: seq<T>, n: nat, x: T)
    requires n <= |s| && x in s[..n]
    ensures FirstIndex(s, x) == FirstIndex(s[..n], x)
  {
    var i, j := FirstIndex(s, x), FirstIndex(s[..n], x);
    assert s[..n][..j] == s[..j];
    assert s[j] == x && x !in s[..j];
    assert forall m :: 0 <= m < i ==> s[m] != x by {
      assert forall m :: 0 <= m < i ==> s[..i][m] in s[..i];
    }
    assert forall m :: 0 <= m < j ==> s[m] != x by {
      assert forall m :: 0 <= m < j ==> s[..j][m] in s[..j];
    }
  }

  /** An element appended to a sequence that lacks it first occurs at the end. */
  lemma FirstIndexLast<T>(s: seq<T>, x: T)
    requires x !in s
    ensures FirstIndex(s + [x], x) == |s|
  {
  }

  /** The filter keeps the order of the present values: between two ids it
      keeps, the one whose first occurrence comes first in the output is the
      one whose first `Some` comes first in the input. */
  lemma {:induction false} PresentKeepsFirstOrder(opts: seq<Option<string>>, x: string, y: string)
    requires x in Present(opts) && y in Present(opts)
    ensures FirstIndex(Present(opts), x) < FirstIndex(Present(opts), y) <==>
            FirstIndex(opts, Some(x)) < FirstIndex(opts, Some(y))
    decreases |opts|
  {
    var n := |opts| - 1;
    var p, o := opts[..n], opts[n];
    assert opts == p + [o];
    PresentExtend(p, o);
    var q := Present(p);
    var r := Present(opts);
    assert r[..|q|] == q;
    if x in q {
      FirstIndexPrefix(r, |q|, x);
      FirstIndexPrefix(opts, n, Some(x));
    }
    if y in q {
      FirstIndexPrefix(r, |q|, y);
      FirstIndexPrefix(opts, n, Some(y));
    }
    if x in q && y in q {
      PresentKeepsFirstOrder(p, x, y);
    }
    if x !in q {
      assert r == q + [x];
      FirstIndexLast(q, x);
      FirstIndexLast(p, Some(x));
    }
    if y !in q {
      assert r == q + [y];
      FirstIndexLast(q, y);
      FirstIndexLast(p, Some(y));
    }
  }

  /** Distinct lists elements in the order of their first occurrence. */
  lemma {:induction false} DistinctKeepsFirstOrder(s: seq<string>, i: nat, j: nat)
    requires i < j < |Distinct(s)|
    ensures FirstIndex(s, Distinct(s)[i]) < FirstIndex(s, Distinct(s)[j])
    decreases |s|
  {
    var n := |s| - 1;
    var q := s[..n];
    var p := Distinct(q);
    var r := Distinct(s);
    assert r[i] in q by {
      if r == p { assert r[i] in p; } else { assert r[i] == p[i]; assert p[i] in p; }
    }
    FirstIndexPrefix(s, n, r[i]);
    if j < |p| {
      assert r[i] == p[i] && r[j] == p[j];
      DistinctKeepsFirstOrder(q, i, j);
      FirstIndexPrefix(s, n, r[j]);
    } else {
      assert r == p + [s[n]] && r[j] == s[n] && s[n] !in q;
      assert FirstIndex(s, s[n]) == n by {
        assert forall m :: 0 <= m < n ==> q[m] in q;
      }
    }
  }

  /** The clean list holds the valid ids in the order in which each first
      occurs among the normalised values. */
  lemma CleanIdsInFirstValidOrder(opts: seq<Option<string>>, i: nat, j: nat)
    requires i < j < |Distinct(Present(opts))|
    ensures Some(Distinct(Present(opts))[i]) in opts && Some(Distinct(Present(opts))[j]) in opts
    ensures FirstIndex(opts, Some(Distinct(Present(opts))[i])) <
            FirstIndex(opts, Some(Distinct(Present(opts))[j]))
  {
    var d := Distinct(Present(opts));
    assert d[i] in d && d[j] in d;
    DistinctKeepsFirstOrder(Present(opts), i, j);
    PresentKeepsFirstOrder(opts, d[i], d[j]);
  }

  /** req.query.ids to a duplicate-free list of valid ids, in order of
      first valid occurrence. */
  method BuildCleanIdList(param: IdsParam) returns (ids: seq<string>)
    ensures ids == Distinct(Present(NormalizeAll(RawList(param))))
    ensures param.Missing? ==> ids == []
    ensures NoDuplicates(ids)
    ensures forall k :: 0 <= k < |ids| ==> IsBase62Id(ids[k])
    ensures forall id :: id in ids <==> Some(id) in NormalizeAll(RawList(param))
    ensures forall i, j :: 0 <= i < j < |ids| ==>
              FirstIndex(NormalizeAll(RawList(param)), Some(ids[i])) <
              FirstIndex(NormalizeAll(RawList(param)), Some(ids[j]))
  {
    if param.Missing? || param == Text("") {
      return [];
    }
    var rawList := RawList(param);
    var cleaned := [];
    for k := 0 to |rawList|
      invariant cleaned == Present(NormalizeAll(rawList[..k]))
    {
      var id := NormalizeRawId(rawList[k]);
      NormalizeAllExtend(rawList, k);
      PresentExtend(NormalizeAll(rawList[..k]), id);
      if id.Some? {
        cleaned := cleaned + [id.value];
      }
    }
    assert rawList[..|rawList|] == rawList;
    ids := Distinct(cleaned);
    forall k | 0 <= k < |ids| ensures IsBase62Id(ids[k]) {
      assert ids[k] in ids;
      var opts := NormalizeAll(rawList);
      var j :| 0 <= j < |opts| && opts[j] == Some(ids[k]);
    }
    forall i, j | 0 <= i < j < |ids|
      ensures FirstIndex(NormalizeAll(rawList), Some(ids[i])) <
              FirstIndex(NormalizeAll(rawList), Some(ids[j]))
    {
      CleanIdsInFirstValidOrder(NormalizeAll(rawList), i, j);
    }
  }

  /** Ids already clean, as an array parameter. */
  function AsItems(ids: seq<string>): seq<Option<string>> {
    seq(|ids|, k requires 0 <= k < |ids| => Some(ids[k]))
  }

  lemma {:induction false} NormalizeAllClean(ids: seq<string>)
    requires forall k :: 0 <= k < |ids| ==> IsBase62Id(ids[k])
    ensures NormalizeAll(AsItems(ids)) == AsItems(ids)
  {
    forall k | 0 <= k < |ids| ensures NormalizeRawId(Some(ids[k])) == Some(ids[k]) {
      NormalizeBareId(ids[k]);
    }
  }

  lemma {:induction false} PresentAll(ids: seq<string>)
    ensures Present(AsItems(ids)) == ids
    decreases |ids|
  {
    if ids != [] {
      var p := ids[..|ids| - 1];
      assert AsItems(ids)[..|ids| - 1] == AsItems(p);
      PresentAll(p);
    }
  }

  lemma {:induction false} DistinctOfDistinct(s: seq<string>)
    requires NoDuplicates(s)
    ensures Distinct(s) == s
    decreases |s|
  {
    if s != [] {
      var p := s[..|s| - 1];
      DistinctOfDistinct(p);
      assert s[|s| - 1] !in p;
    }
  }

  /** Cleaning is idempotent: a clean list sent back as an array parameter
      comes back unchanged. */
  lemma CleanIdListIdempotent(ids: seq<string>)
    requires NoDuplicates(ids)
    requires forall k :: 0 <= k < |ids| ==> IsBase62Id(ids[k])
    ensures Distinct(Present(NormalizeAll(RawList(Items(AsItems(ids)))))) == ids
  {
    NormalizeAllClean(ids);
    PresentAll(ids);
    DistinctOfDistinct(ids);
  }

  /* ---------------- Batches ---------------- */

  /** The concatenation of a list of lists. */
  function Flatten<T>(xs: seq<seq<T>>): seq<T> {
    if xs == [] then [] else Flatten(xs[..|xs| - 1]) + xs[|xs| - 1]
  }

  lemma MulMonotone(x: int, y: int, d: nat)
    requires x <= y
    ensures x * d <= y * d
  {
    var k := y - x;
    assert y * d == x * d + k * d;
  }
  lemma DivUnique(a: int, d: nat, q: int)
    requires d > 0
    requires q * d <= a < (q + 1) * d
    ensures a / d == q
  {
    var p := a / d;
    assert a == p * d + a % d;
    if p < q {
      MulMonotone(p + 1, q, d);
    } else if p > q {
      MulMonotone(q + 1, p, d);
    }
  }

  lemma FlattenSnoc<T>(xs: seq<seq<T>>, c: seq<T>)
    ensures Flatten(xs + [c]) == Flatten(xs) + c
  {
    assert (xs + [c])[..|xs|] == xs;
  }

  /** The number of batches of `size` that `len` elements fill: one per
      `size` elements, the last one possibly short. */
  function BatchCount(len: nat, size: nat): nat
    requires size > 0
    decreases len
  {
    if len == 0 then 0
    else if len <= size then 1
    else 1 + BatchCount(len - size, size)
  }

  /** Adding one divisor adds one to the quotient. */
  lemma DivPlusOne(x: nat, d: nat)
    requires d > 0
    ensures (x + d) / d == x / d + 1
  {
    var q := x / d;
    assert x == q * d + x % d;
    assert (q + 1) * d == q * d + d;
    assert (q + 2) * d == q * d + d + d;
    DivUnique(x + d, d, q + 1);
  }

  /** The batch count is the ceiling of `len / size`. */
  lemma {:induction false} BatchCountCeil(len: nat, size: nat)
    requires size > 0
    ensures BatchCount(len, size) == (len + size - 1) / size
    decreases len
  {
    if len == 0 {
      DivUnique(size - 1, size, 0);
    } else if len <= size {
      DivUnique(len + size - 1, size, 1);
    } else {
      BatchCountCeil(len - size, size);
      DivPlusOne(len - 1, size);
    }
  }

  /** Splits `a` into consecutive batches of `size` elements, the last one
      possibly shorter. */
  method Chunk<T>(a: seq<T>, size: nat) returns (out: seq<seq<T>>)
    requires size > 0
    ensures Flatten(out) == a
    ensures |out| == BatchCount(|a|, size) == (|a| + size - 1) / size
    ensures forall k :: 0 <= k < |out| - 1 ==> |out[k]| == size
    ensures forall k :: 0 <= k < |out| ==> 0 < |out[k]| <= size
  {
    out := [];
    var i := 0;
    while i < |a|
      invariant i <= |a| ==> Flatten(out) == a[..i]
      invariant i > |a| ==> Flatten(out) == a
      invariant |out| + BatchCount(if i < |a| then |a| - i else 0, size) == BatchCount(|a|, size)
      invariant forall k :: 0 <= k < |out| ==> 0 < |out[k]| <= size
      invariant forall k :: 0 <= k < |out| - 1 ==> |out[k]| == size
      invariant i < |a| ==> forall k :: 0 <= k < |out| ==> |out[k]| == size
      decreases |a| - i
    {
      var end := if i + size < |a| then i + size else |a|;
      var batch := a[i..end];
      FlattenSnoc(out, batch);
      assert a[..i] + batch == a[..end];
      out := out + [batch];
      i := i + size;
    }
    BatchCountCeil(|a|, size);
  }
}
