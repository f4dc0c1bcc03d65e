/**
 * `hashbang.parse` and `hashbang.stringify`: a URL fragment of the form `#!/a/b/?k=v` read as a
 * path (a sequence of decoded segments) and a query, and written back.
 *
 * The query-string codec (`querystring.js`) is not part of this model: both operations take it as
 * a record of two functions, and a query is the ordered list of key/value pairs the codec produces
 * (the enumeration order of the JavaScript object).
 */
module Fragment {
  import opened Wrappers
  import opened Text
  import SegmentCodec

  type Query = seq<(string, string)>

  /** `qs.parse(text, sep, eq)` and `qs.stringify(query, sep, eq)`; a `None` text is `undefined`. */
  datatype QueryCodec = QueryCodec(
    parse: (Option<string>, string, string) -> Query,
    stringify: (Query, string, string) -> string)

  /** What `parse` returns: `{}` (no marker, or not a string), or `{path, query}`. */
  datatype ParseResult = NoRoute | Route(path: seq<string>, query: Query)

  /** The `path` field `stringify` reads: an array of segments or a pre-built string. */
  datatype PathValue = Segments(segments: seq<string>) | Text(text: string)

  /** `x || fallback` for a string argument: the empty string (and `undefined`) fall back. */
  function OrDefault(x: string, fallback: string): (r: string)
    ensures r == x || r == fallback
    ensures r != "" <== fallback != ""
  {
    if x == "" then fallback else x
  }

  /** The characters that end a line for a JavaScript regular expression's `.` */
  predicate IsLineTerminator(c: char) {
    c == '\n' || c == '\r' || c == '\U{2028}' || c == '\U{2029}'
  }

  predicate NoLineTerminator(s: string) {
    forall i :: 0 <= i < |s| ==> !IsLineTerminator(s[i])
  }

  /** A match of `/#.*$/` can start at index `j` of `s`. */
  predicate OpensSuffix(s: string, j: int)
    requires 0 <= j < |s|
  {
    s[j] == '#' && NoLineTerminator(s[j + 1..])
  }

  /**
   * `s.match(/#.*$/)`: the suffix of `s` from the first `#` that no line terminator follows
   * (`.` stops at a line terminator and `$` needs the end of the input).
   */
  function HashSuffix(s: string): (r: Option<string>)
    ensures r.Some? ==> 0 < |r.value| <= |s| && r.value == s[|s| - |r.value|..] && r.value[0] == '#'
    decreases |s|
  {
    if s == [] then None
    else if OpensSuffix(s, 0) then Some(s)
    else HashSuffix(s[1..])
  }

  /**
   * The hash suffix starts at the first index where a match can start; there is none exactly
   * when a match can start nowhere.
   */
  lemma {:induction false} HashSuffixFirst(s: string)
    ensures match HashSuffix(s)
            case Some(h) =>
              && OpensSuffix(s, |s| - |h|)
              && forall j :: 0 <= j < |s| - |h| ==> !OpensSuffix(s, j)
            case None => forall j :: 0 <= j < |s| ==> !OpensSuffix(s, j)
    decreases |s|
  {
    if s != [] && !OpensSuffix(s, 0) {
      HashSuffixFirst(s[1..]);
      forall j | 1 <= j < |s| ensures OpensSuffix(s, j) == OpensSuffix(s[1..], j - 1) {
        assert s[j + 1..] == s[1..][j..];
      }
    }
  }

  /**
   * The segments `parse` keeps from the pieces of the path: a piece is decoded once and kept only
   * when that is non-empty, and what is kept is decoded a second time.
   */
  function KeptSegments(pieces: seq<string>): (r: seq<string>)
    ensures |r| <= |pieces|
    decreases |pieces|
  {
    if pieces == [] then []
    else
      var once := SegmentCodec.DecodeLenient(pieces[0]);
      (if once != "" then [SegmentCodec.DecodeLenient(once)] else []) + KeptSegments(pieces[1..])
  }

  /** `hashbang.parse(input, sep, eq)`; `None` stands for an input that is not a string. */
  function Parse(input: Option<string>, sep: string, eq: string, codec: QueryCodec): (r: ParseResult)
    ensures input.None? ==> r == NoRoute
    ensures r.Route? <==> input.Some? && HashSuffix(input.value).Some? && "#!/" <= HashSuffix(input.value).value
  {
    match input
    case None => NoRoute
    case Some(s) =>
      var h := HashSuffix(s).GetOr("");
      if "#!/" <= h then ParseMarked(h, sep, eq, codec) else NoRoute
  }

  /**
   * The part of `parse` after the marker test: the marker becomes `/`, the text is cut at the
   * next `#`, the path is what precedes the first `?` and the query text what lies between the
   * first and the second `?`.
   */
  function ParseMarked(h: string, sep: string, eq: string, codec: QueryCodec): (r: ParseResult)
    requires "#!/" <= h
    ensures r.Route?
  {
    var halves := Split(Before("/" + h[3..], '#'), '?');
    var queryText := if |halves| > 1 then Some(halves[1]) else None;
    Route(KeptSegments(Split(halves[0], '/')), codec.parse(queryText, OrDefault(sep, "&"), OrDefault(eq, "=")))
  }

  function EncodeAll(segments: seq<string>): seq<string> {
    seq(|segments|, i requires 0 <= i < |segments| => SegmentCodec.Encode(segments[i]))
  }

  /** `'?' + qs` when the query string is non-empty, nothing otherwise. */
  function QueryTail(qs: string): string {
    if qs == "" then "" else "?" + qs
  }

  /** The path part `stringify` writes for an array path: `/` before each encoded segment, then a final `/`. */
  function PathText(segments: seq<string>): (r: string)
    ensures r != [] && r[0] == '/' && r[|r| - 1] == '/'
  {
    (if segments == [] then "" else "/" + Join(EncodeAll(segments), '/')) + "/"
  }

  /**
   * `hashbang.stringify({path, query}, sep, eq)`. An empty string path counts as a missing one
   * (`path || []`) and so as the empty array.
   */
  function Stringify(path: PathValue, query: Query, sep: string, eq: string, codec: QueryCodec): (r: string)
    ensures "#!" <= r
  {
    var tail := QueryTail(codec.stringify(query, OrDefault(sep, "&"), OrDefault(eq, "=")));
    if path.Text? && path.text != "" then "#!" + path.text + tail
    else "#!" + PathText(if path.Segments? then path.segments else []) + tail
  }

  // ---------------------------------------------------------------------------------------------
  // Properties

  /** The segments of `p` that are not empty, in order. */
  function NonEmpty(p: seq<string>): (r: seq<string>)
    ensures forall x :: x in r <==> x in p && x != ""
    decreases |p|
  {
    if p == [] then [] else (if p[0] != "" then [p[0]] else []) + NonEmpty(p[1..])
  }

  /** The non-empty segments of `p`, each passed once through `_decode`. */
  function DecodedNonEmpty(p: seq<string>): (r: seq<string>)
    ensures |r| == |NonEmpty(p)|
    decreases |p|
  {
    if p == [] then []
    else (if p[0] != "" then [SegmentCodec.DecodeLenient(p[0])] else []) + DecodedNonEmpty(p[1..])
  }

  lemma {:induction false} KeptAppendEmpty(pieces: seq<string>)
    ensures KeptSegments(pieces + [""]) == KeptSegments(pieces)
    decreases |pieces|
  {
    SegmentCodec.DecodeNoPercent("");
    if pieces == [] {
      assert KeptSegments([""]) == [] + KeptSegments([]);
    } else {
      KeptAppendEmpty(pieces[1..]);
      assert (pieces + [""])[1..] == pieces[1..] + [""];
    }
  }

  /** Of encoded segments, `parse` keeps the non-empty ones, decoded once more. */
  lemma {:induction false} KeptEncoded(p: seq<string>)
    ensures KeptSegments(EncodeAll(p)) == DecodedNonEmpty(p)
    decreases |p|
  {
    if p != [] {
      KeptEncoded(p[1..]);
      SegmentCodec.DecodeEncode(p[0]);
      SegmentCodec.EncodeEmpty(p[0]);
      assert EncodeAll(p)[1..] == EncodeAll(p[1..]);
    }
  }

  lemma {:induction false} DecodedNoPercent(p: seq<string>)
    requires forall i :: 0 <= i < |p| ==> '%' !in p[i]
    ensures DecodedNonEmpty(p) == NonEmpty(p)
    decreases |p|
  {
    if p != [] {
      DecodedNoPercent(p[1..]);
      SegmentCodec.DecodeNoPercent(p[0]);
    }
  }

  lemma {:induction false} JoinSnoc(parts: seq<string>, last: string, c: char)
    requires parts != []
    ensures Join(parts + [last], c) == Join(parts, c) + [c] + last
    decreases |parts|
  {
    if |parts| > 1 {
      JoinSnoc(parts[1..], last, c);
      assert (parts + [last])[1..] == parts[1..] + [last];
    }
  }

  /** The path text of an array path is the join, on `/`, of an empty piece, the encoded segments and an empty piece. */
  lemma PathTextPieces(p: seq<string>)
    ensures PathText(p) == Join([""] + EncodeAll(p) + [""], '/')
  {
    var e := EncodeAll(p);
    if p == [] {
      assert [""] + e + [""] == ["", ""];
      assert Join(["", ""], '/') == "" + "/" + Join([""], '/');
    } else {
      var front, j := [""] + e, Join(e, '/');
      JoinSnoc(front, "", '/');
      assert |front| > 1 && front[0] == "" && front[1..] == e;
      assert Join(front, '/') == "/" + j;
      assert PathText(p) == "/" + j + "/";
      assert Join(front, '/') + ['/'] + "" == "/" + j + "/";
    }
  }

  /** None of those pieces holds a `/`. */
  lemma PathPiecesFree(p: seq<string>)
    ensures var pieces := [""] + EncodeAll(p) + [""];
            forall i :: 0 <= i < |pieces| ==> '/' !in pieces[i]
  {
    var pieces := [""] + EncodeAll(p) + [""];
    forall i | 0 <= i < |pieces| ensures '/' !in pieces[i] {
      if 0 < i < |pieces| - 1 {
        SegmentCodec.EncodeChars(p[i - 1]);
        assert pieces[i] == SegmentCodec.Encode(p[i - 1]);
      }
    }
  }

  /** Nothing in the path text of an array path ends a line or is `?` or `#`. */
  lemma PathTextChars(p: seq<string>)
    ensures NoLineTerminator(PathText(p)) && '?' !in PathText(p) && '#' !in PathText(p)
  {
    PathTextPieces(p);
    PathPiecesClean(p);
    JoinChars([""] + EncodeAll(p) + [""], '/');
  }

  /** No piece of the path text of an array path holds a line terminator, `?` or `#`. */
  lemma PathPiecesClean(p: seq<string>)
    ensures var pieces := [""] + EncodeAll(p) + [""];
            forall i :: 0 <= i < |pieces| ==> NoLineTerminator(pieces[i]) && '?' !in pieces[i] && '#' !in pieces[i]
  {
    var e := EncodeAll(p);
    forall j | 0 <= j < |e| ensures NoLineTerminator(e[j]) && '?' !in e[j] && '#' !in e[j] {
      EncodedClean(p[j]);
    }
    FramedClean(e);
  }

  /** Empty pieces on either side of clean pieces are clean. */
  lemma FramedClean(e: seq<string>)
    requires forall j :: 0 <= j < |e| ==> NoLineTerminator(e[j]) && '?' !in e[j] && '#' !in e[j]
    ensures var pieces := [""] + e + [""];
            forall i :: 0 <= i < |pieces| ==> NoLineTerminator(pieces[i]) && '?' !in pieces[i] && '#' !in pieces[i]
  {
    var pieces := [""] + e + [""];
    forall i | 0 <= i < |pieces|
      ensures NoLineTerminator(pieces[i]) && '?' !in pieces[i] && '#' !in pieces[i]
    {
      if 0 < i < |pieces| - 1 {
        assert pieces[i] == e[i - 1];
      }
    }
  }

  /** An encoded segment holds no line terminator, `?` or `#`. */
  lemma EncodedClean(x: string)
    ensures var e := SegmentCodec.Encode(x);
            NoLineTerminator(e) && '?' !in e && '#' !in e
  {
    var e := SegmentCodec.Encode(x);
    SegmentCodec.EncodeChars(x);
    forall k | 0 <= k < |e| ensures !IsLineTerminator(e[k]) {
      assert SegmentCodec.EncodedChar(e[k]);
    }
  }

  /** A join of pieces free of line terminators, `?` and `#`, on `/`, is free of them too. */
  lemma {:induction false} JoinChars(pieces: seq<string>, c: char)
    requires c == '/'
    requires forall i :: 0 <= i < |pieces| ==> NoLineTerminator(pieces[i]) && '?' !in pieces[i] && '#' !in pieces[i]
    ensures NoLineTerminator(Join(pieces, c)) && '?' !in Join(pieces, c) && '#' !in Join(pieces, c)
    decreases |pieces|
  {
    if |pieces| > 1 {
      JoinChars(pieces[1..], c);
      var j := Join(pieces, c);
      assert j == pieces[0] + [c] + Join(pieces[1..], c);
      forall k | 0 <= k < |j| ensures !IsLineTerminator(j[k]) {
        if k < |pieces[0]| { assert j[k] == pieces[0][k]; }
        else if k > |pieces[0]| { assert j[k] == Join(pieces[1..], c)[k - |pieces[0]| - 1]; }
      }
    }
  }

  /** A text that starts with `#` and has no line terminator is its own hash suffix. */
  lemma HashSuffixWhole(s: string)
    requires s != [] && s[0] == '#' && NoLineTerminator(s)
    ensures HashSuffix(s) == Some(s)
  {
  }

  /** `#!`, a text and a query tail, none of them breaking the line, form their own hash suffix. */
  lemma MarkedFragment(body: string, qs: string)
    requires NoLineTerminator(body) && NoLineTerminator(qs)
    ensures var s := "#!" + body + QueryTail(qs);
            HashSuffix(s) == Some(s) && s[2..] == body + QueryTail(qs)
  {
    var tail := QueryTail(qs);
    var s := "#!" + body + tail;
    forall k | 0 <= k < |s| ensures !IsLineTerminator(s[k]) {
      if k >= 2 + |body| + 1 { assert s[k] == qs[k - 3 - |body|]; }
      else if 2 <= k < 2 + |body| { assert s[k] == body[k - 2]; }
    }
    HashSuffixWhole(s);
  }

  /** After `#!`, a text that starts with `/` reads, with the marker turned back into `/`, as itself. */
  lemma MarkerSlash(body: string, tail: string)
    requires body != [] && body[0] == '/'
    ensures var s := "#!" + body + tail;
            "#!/" <= s && "/" + s[3..] == body + tail
  {
    var s := "#!" + body + tail;
    assert s[2] == body[0];
    assert s[3..] == body[1..] + tail;
    assert body == "/" + body[1..];
  }

  lemma Regroup(a: string, b: string, c: string, d: string)
    ensures a + (b + c) + d == (a + b) + c + d
  {
  }

  /** What `stringify` writes for an array path is its own hash suffix and carries the marker. */
  lemma StringifiedFragment(p: seq<string>, qs: string)
    requires NoLineTerminator(qs)
    ensures var s := "#!" + PathText(p) + QueryTail(qs);
            HashSuffix(s) == Some(s) && "#!/" <= s && "/" + s[3..] == PathText(p) + QueryTail(qs)
  {
    PathTextChars(p);
    MarkedFragment(PathText(p), qs);
    MarkerSlash(PathText(p), QueryTail(qs));
  }

  /** A `#`-free text followed by a query tail splits, at the first `?`, into that text and the query string. */
  lemma SplitAtQuery(body: string, qs: string)
    requires '?' !in body && '#' !in body && '?' !in qs && '#' !in qs
    ensures Split(Before(body + QueryTail(qs), '#'), '?') == if qs == "" then [body] else [body, qs]
  {
    var t := body + QueryTail(qs);
    assert '#' !in t;
    SplitFree(t, '#');
    assert Before(t, '#') == t;
    if qs == "" {
      assert t == body;
      SplitFree(body, '?');
    } else {
      assert t == body + ['?'] + qs;
      SplitAfter(body, qs, '?');
      SplitFree(qs, '?');
    }
  }

  /**
   * A text that is its own hash suffix, carries the marker, and continues as a path text and a
   * query tail free of `?` and `#` parses to the kept pieces of that path text and to what the
   * codec reads from the query string.
   */
  lemma ParseFragment(s: string, body: string, qs: string, sep: string, eq: string, codec: QueryCodec)
    requires HashSuffix(s) == Some(s) && "#!/" <= s && "/" + s[3..] == body + QueryTail(qs)
    requires '?' !in body && '#' !in body && '?' !in qs && '#' !in qs
    ensures Parse(Some(s), sep, eq, codec)
            == Route(KeptSegments(Split(body, '/')),
                     codec.parse(if qs == "" then None else Some(qs), OrDefault(sep, "&"), OrDefault(eq, "=")))
  {
    assert Parse(Some(s), sep, eq, codec) == ParseMarked(s, sep, eq, codec);
    SplitAtQuery(body, qs);
  }

  /** The path text of an array path parses back to its non-empty segments, decoded once more. */
  lemma PathTextKept(p: seq<string>)
    ensures KeptSegments(Split(PathText(p), '/')) == DecodedNonEmpty(p)
  {
    PathTextSplit(p);
    KeptFramed(EncodeAll(p));
    KeptEncoded(p);
  }

  /** The path text of an array path splits at `/` into its encoded segments between two empty pieces. */
  lemma PathTextSplit(p: seq<string>)
    ensures Split(PathText(p), '/') == [""] + EncodeAll(p) + [""]
  {
    PathTextPieces(p);
    PathPiecesFree(p);
    SplitJoin([""] + EncodeAll(p) + [""], '/');
  }

  /** Empty pieces on either side keep nothing. */
  lemma KeptFramed(pieces: seq<string>)
    ensures KeptSegments([""] + pieces + [""]) == KeptSegments(pieces)
  {
    var framed := [""] + pieces + [""];
    SegmentCodec.DecodeNoPercent("");
    assert framed[1..] == pieces + [""];
    KeptAppendEmpty(pieces);
  }

  /**
   * Round trip: parsing what `stringify` writes for an array path gives back the non-empty
   * segments, each decoded once more, and the query the codec reads back from its own output,
   * provided that output holds no `?`, `#` or line terminator.
   */
  lemma StringifyParse(p: seq<string>, q: Query, sep: string, eq: string, codec: QueryCodec)
    requires var qs := codec.stringify(q, OrDefault(sep, "&"), OrDefault(eq, "="));
             '?' !in qs && '#' !in qs && NoLineTerminator(qs)
    ensures var qs := codec.stringify(q, OrDefault(sep, "&"), OrDefault(eq, "="));
            Parse(Some(Stringify(Segments(p), q, sep, eq, codec)), sep, eq, codec)
            == Route(DecodedNonEmpty(p), codec.parse(if qs == "" then None else Some(qs), OrDefault(sep, "&"), OrDefault(eq, "=")))
  {
    var qs := codec.stringify(q, OrDefault(sep, "&"), OrDefault(eq, "="));
    var s := "#!" + PathText(p) + QueryTail(qs);
    assert Stringify(Segments(p), q, sep, eq, codec) == s;
    StringifiedFragment(p, qs);
    PathTextChars(p);
    ParseFragment(s, PathText(p), qs, sep, eq, codec);
    PathTextKept(p);
  }

  /**
   * The round trip of the path, for segments without `%`: parsing what `stringify` writes gives
   * back the segments with the empty ones dropped.
   */
  lemma StringifyParsePath(p: seq<string>, q: Query, sep: string, eq: string, codec: QueryCodec)
    requires forall i :: 0 <= i < |p| ==> '%' !in p[i]
    requires var qs := codec.stringify(q, OrDefault(sep, "&"), OrDefault(eq, "="));
             '?' !in qs && '#' !in qs && NoLineTerminator(qs)
    ensures var r := Parse(Some(Stringify(Segments(p), q, sep, eq, codec)), sep, eq, codec);
            r.Route? && r.path == NonEmpty(p)
  {
    StringifyParse(p, q, sep, eq, codec);
    DecodedNoPercent(p);
  }

  /** Pieces without `%` are kept exactly when they are non-empty, unchanged. */
  lemma {:induction false} KeptNoPercent(pieces: seq<string>)
    requires forall i :: 0 <= i < |pieces| ==> '%' !in pieces[i]
    ensures KeptSegments(pieces) == NonEmpty(pieces)
    decreases |pieces|
  {
    if pieces != [] {
      KeptNoPercent(pieces[1..]);
      SegmentCodec.DecodeNoPercent(pieces[0]);
    }
  }

  /**
   * A fragment `#!/` + path text + query tail, with no `#`, `?` or line terminator in the path
   * text or the query string, parses to the kept pieces of `/` + path text and to what the codec
   * reads from the query string.
   */
  lemma ParseHashbang(path: string, qs: string, sep: string, eq: string, codec: QueryCodec)
    requires '#' !in path && '?' !in path && NoLineTerminator(path)
    requires '#' !in qs && '?' !in qs && NoLineTerminator(qs)
    ensures Parse(Some("#!/" + path + QueryTail(qs)), sep, eq, codec)
            == Route(KeptSegments(Split("/" + path, '/')),
                     codec.parse(if qs == "" then None else Some(qs), OrDefault(sep, "&"), OrDefault(eq, "=")))
  {
    var body := "/" + path;
    assert NoLineTerminator(body) by {
      forall k | 0 < k < |body| ensures !IsLineTerminator(body[k]) { assert body[k] == path[k - 1]; }
    }
    MarkedFragment(body, qs);
    MarkerSlash(body, QueryTail(qs));
    Regroup("#!", "/", path, QueryTail(qs));
    assert "#!" + "/" == "#!/";
    ParseFragment("#!/" + path + QueryTail(qs), body, qs, sep, eq, codec);
  }

  /** `parse('#!/a/b/c?a=1&b=2')` has the path `["a", "b", "c"]` and the query the codec reads from `a=1&b=2`. */
  lemma ParseExample(codec: QueryCodec)
    ensures Parse(Some("#!/a/b/c?a=1&b=2"), "", "", codec)
            == Route(["a", "b", "c"], codec.parse(Some("a=1&b=2"), "&", "="))
  {
    var path, qs := "a/b/c", "a=1&b=2";
    assert "#!/a/b/c?a=1&b=2" == "#!/" + path + QueryTail(qs);
    ParseHashbang(path, qs, "", "", codec);
    ExamplePieces();
  }

  lemma ExamplePieces()
    ensures KeptSegments(Split("/a/b/c", '/')) == ["a", "b", "c"]
  {
    var pieces := ["", "a", "b", "c"];
    ExampleSplit();
    KeptNoPercent(pieces);
    assert NonEmpty(pieces[3..]) == ["c"];
    assert NonEmpty(pieces[2..]) == ["b", "c"] by { assert pieces[2..][1..] == pieces[3..]; }
    assert NonEmpty(pieces[1..]) == ["a", "b", "c"] by { assert pieces[1..][1..] == pieces[2..]; }
  }

  lemma ExampleSplit()
    ensures Split("/a/b/c", '/') == ["", "a", "b", "c"]
  {
    var pieces := ["", "a", "b", "c"];
    assert Join(pieces[3..], '/') == "c";
    assert Join(pieces[2..], '/') == "b/c" by { assert pieces[2..][1..] == pieces[3..]; }
    assert Join(pieces[1..], '/') == "a/b/c" by { assert pieces[1..][1..] == pieces[2..]; }
    assert Join(pieces, '/') == "/a/b/c";
    SplitJoin(pieces, '/');
  }

  /** A text without `#` has no route: `parse('no-hash-here')` gives `{}`. */
  lemma ParseWithoutHash(codec: QueryCodec)
    ensures Parse(Some("no-hash-here"), "", "", codec) == NoRoute
  {
    var s := "no-hash-here";
    assert '#' !in s;
    assert HashSuffix(s) == None;
  }

  /** A fragment without the `!` of the marker has no route: `parse('#/a')` gives `{}`. */
  lemma ParseWithoutBang(codec: QueryCodec)
    ensures Parse(Some("#/a"), "", "", codec) == NoRoute
  {
    var h := "#/a";
    assert NoLineTerminator(h);
    ParseFragmentUnmarked(h, "", "", codec);
  }

  lemma ParseFragmentUnmarked(h: string, sep: string, eq: string, codec: QueryCodec)
    requires 2 <= |h| && h[0] == '#' && h[1] != '!' && NoLineTerminator(h)
    ensures Parse(Some(h), sep, eq, codec) == NoRoute
  {
    HashSuffixWhole(h);
    assert !("#!/" <= h) by { assert h[1] != "#!/"[1]; }
  }

  /** The marker is looked for after the last line break: a fragment on an earlier line is not seen. */
  lemma ParseAfterLineBreak(codec: QueryCodec)
    ensures Parse(Some("#!/a\nb"), "", "", codec) == NoRoute
  {
    var s := "#!/a\nb";
    assert s[4] == '\n' && !NoLineTerminator(s[1..]);
    assert '#' !in s[1..];
    assert HashSuffix(s[1..]) == None;
  }

  /**
   * `parse` decodes each kept segment twice: a segment `100%` is written as `100%25`, read back
   * as `100%` and then decoded again, which fails and leaves the empty string in the path.
   */
  lemma StringifyParseDecodesTwice(codec: QueryCodec)
    requires codec.stringify([], "&", "=") == ""
    ensures var r := Parse(Some(Stringify(Segments(["100%"]), [], "", "", codec)), "", "", codec);
            r.Route? && r.path == [""]
  {
    StringifyParse(["100%"], [], "", "", codec);
    DecodedTwiceExample();
  }

  lemma DecodedTwiceExample()
    ensures DecodedNonEmpty(["100%"]) == [""]
  {
    SegmentCodec.DecodeFailures();
    assert DecodedNonEmpty(["100%"]) == [SegmentCodec.DecodeLenient("100%")] + DecodedNonEmpty([]);
  }

  /** An empty array path and an empty query are written as exactly `#!/`; so is an empty string path. */
  lemma StringifyEmpty(q: Query, codec: QueryCodec)
    requires codec.stringify(q, "&", "=") == ""
    ensures Stringify(Segments([]), q, "", "", codec) == "#!/"
    ensures Stringify(Text(""), q, "", "", codec) == "#!/"
  {
  }

  /** `stringify({path: ["a", "b", "c"], query})` writes `#!/a/b/c/?` and the query string. */
  lemma StringifyExample(q: Query, codec: QueryCodec)
    requires codec.stringify(q, "&", "=") == "a=1&b=2&c=3"
    ensures Stringify(Segments(["a", "b", "c"]), q, "", "", codec) == "#!/a/b/c/?a=1&b=2&c=3"
  {
    ExamplePathText();
  }

  lemma ExamplePathText()
    ensures PathText(["a", "b", "c"]) == "/a/b/c/"
  {
    var p := ["a", "b", "c"];
    forall i | 0 <= i < 3 ensures SegmentCodec.Encode(p[i]) == p[i] {
      assert SegmentCodec.Unreserved(p[i][0]);
      assert SegmentCodec.EncodeChar(p[i][0]) == p[i];
    }
    assert EncodeAll(p) == p;
    assert Join(p, '/') == "a/b/c";
  }

  /**
   * A non-empty string path is copied after `#!` as it is, followed by the query tail. When it
   * does not start with `/` (and neither it nor the query string holds a `#`), `parse` does not
   * recognise the result.
   */
  lemma StringifyTextPath(t: string, q: Query, sep: string, eq: string, codec: QueryCodec)
    requires t != []
    ensures var qs := codec.stringify(q, OrDefault(sep, "&"), OrDefault(eq, "="));
            Stringify(Text(t), q, sep, eq, codec) == "#!" + t + QueryTail(qs)
    ensures var qs := codec.stringify(q, OrDefault(sep, "&"), OrDefault(eq, "="));
            t[0] != '/' && '#' !in t && '#' !in qs ==> Parse(Some(Stringify(Text(t), q, sep, eq, codec)), sep, eq, codec) == NoRoute
  {
    var qs := codec.stringify(q, OrDefault(sep, "&"), OrDefault(eq, "="));
    var s := "#!" + t + QueryTail(qs);
    if t[0] != '/' && '#' !in t && '#' !in qs {
      assert s[1..] == "!" + t + QueryTail(qs);
      assert '#' !in s[1..];
      assert HashSuffix(s).Some? ==> HashSuffix(s).value == s;
      assert s[2] == t[0];
      assert !("#!/" <= s);
    }
  }

  /**
   * A string path that starts with `/`, with no `#`, `?` or line terminator in it or in the query
   * string, is written as a fragment that `parse` reads back as the kept pieces of that path and
   * the codec's reading of the query string.
   */
  lemma StringifyTextRoute(t: string, q: Query, sep: string, eq: string, codec: QueryCodec)
    requires t != [] && t[0] == '/' && '#' !in t && '?' !in t && NoLineTerminator(t)
    requires var qs := codec.stringify(q, OrDefault(sep, "&"), OrDefault(eq, "="));
             '#' !in qs && '?' !in qs && NoLineTerminator(qs)
    ensures var qs := codec.stringify(q, OrDefault(sep, "&"), OrDefault(eq, "="));
            Parse(Some(Stringify(Text(t), q, sep, eq, codec)), sep, eq, codec)
            == Route(KeptSegments(Split(t, '/')), codec.parse(if qs == "" then None else Some(qs), OrDefault(sep, "&"), OrDefault(eq, "=")))
  {
    var qs := codec.stringify(q, OrDefault(sep, "&"), OrDefault(eq, "="));
    StringifyTextPath(t, q, sep, eq, codec);
    SlashText(t, qs);
    ParseMarkedText(t[1..] + QueryTail(qs), sep, eq, codec);
    SplitAtQuery(t, qs);
  }

  /** A text starting with `/` and a query tail, without line terminators, read after `#!/`. */
  lemma SlashText(t: string, qs: string)
    requires t != [] && t[0] == '/' && NoLineTerminator(t) && NoLineTerminator(qs)
    ensures var x := t[1..] + QueryTail(qs);
            NoLineTerminator(x) && "/" + x == t + QueryTail(qs) && "#!" + t + QueryTail(qs) == "#!/" + x
  {
    var rest, tail := t[1..], QueryTail(qs);
    assert NoLineTerminator(rest) by {
      forall k | 0 <= k < |rest| ensures !IsLineTerminator(rest[k]) { assert rest[k] == t[k + 1]; }
    }
    assert NoLineTerminator(tail) by {
      if qs != "" { NoBreakConcat("?", qs); }
    }
    NoBreakConcat(rest, tail);
    assert t == "/" + rest;
  }

  // ---------------------------------------------------------------------------------------------
  // The cuts at a second `?` and at a later `#`

  lemma NoBreakConcat(a: string, b: string)
    requires NoLineTerminator(a) && NoLineTerminator(b)
    ensures NoLineTerminator(a + b)
  {
    forall k | 0 <= k < |a + b| ensures !IsLineTerminator((a + b)[k]) {
      if k >= |a| { assert (a + b)[k] == b[k - |a|]; }
    }
  }

  /**
   * `#!/` followed by a text without line terminators parses as the marked text: the marker
   * becomes `/`, the text is cut at its first `#` and split at `?`.
   */
  lemma ParseMarkedText(x: string, sep: string, eq: string, codec: QueryCodec)
    requires NoLineTerminator(x)
    ensures var halves := Split(Before("/" + x, '#'), '?');
            Parse(Some("#!/" + x), sep, eq, codec)
            == Route(KeptSegments(Split(halves[0], '/')),
                     codec.parse(if |halves| > 1 then Some(halves[1]) else None, OrDefault(sep, "&"), OrDefault(eq, "=")))
  {
    var s := "#!/" + x;
    forall k | 0 <= k < |s| ensures !IsLineTerminator(s[k]) {
      if k >= 3 { assert s[k] == x[k - 3]; }
    }
    HashSuffixWhole(s);
    assert "#!/" <= s && s[3..] == x;
  }

  /** Cut at the first `#` and split at `?`, the text after a path and a query string gives those two first. */
  lemma SecondQueryHalves(path: string, qs: string, rest: string)
    requires '#' !in path && '?' !in path && '#' !in qs && '?' !in qs
    ensures var halves := Split(Before("/" + (path + "?" + qs + "?" + rest), '#'), '?');
            |halves| > 1 && halves[0] == "/" + path && halves[1] == qs
  {
    var body := "/" + path;
    var front := body + "?" + qs + "?";
    assert "/" + (path + "?" + qs + "?" + rest) == front + rest;
    assert '#' !in front;
    BeforeAppend(front, rest, '#');
    var after := Before(rest, '#');
    assert front + after == body + ['?'] + (qs + ['?'] + after);
    SplitAfter(body, qs + ['?'] + after, '?');
    SplitAfter(qs, after, '?');
  }

  /**
   * A second `?` ends the query string: `#!/` + path + `?` + query string + `?` + anything gives
   * the query the codec reads from the text between the two `?`, and the rest is dropped.
   */
  lemma ParseSecondQuery(path: string, qs: string, rest: string, sep: string, eq: string, codec: QueryCodec)
    requires '#' !in path && '?' !in path && NoLineTerminator(path)
    requires '#' !in qs && '?' !in qs && NoLineTerminator(qs)
    requires NoLineTerminator(rest)
    ensures Parse(Some("#!/" + path + "?" + qs + "?" + rest), sep, eq, codec)
            == Route(KeptSegments(Split("/" + path, '/')), codec.parse(Some(qs), OrDefault(sep, "&"), OrDefault(eq, "=")))
  {
    var x := path + "?" + qs + "?" + rest;
    SecondQueryText(path, qs, rest);
    ParseMarkedText(x, sep, eq, codec);
    SecondQueryHalves(path, qs, rest);
  }

  /** The text after `#!/` in a fragment with two `?`s carries no line terminator. */
  lemma SecondQueryText(path: string, qs: string, rest: string)
    requires NoLineTerminator(path) && NoLineTerminator(qs) && NoLineTerminator(rest)
    ensures NoLineTerminator(path + "?" + qs + "?" + rest)
    ensures "#!/" + path + "?" + qs + "?" + rest == "#!/" + (path + "?" + qs + "?" + rest)
  {
    NoBreakConcat(path, "?");
    NoBreakConcat(path + "?", qs);
    NoBreakConcat(path + "?" + qs, "?");
    NoBreakConcat(path + "?" + qs + "?", rest);
  }

  /** Cut at the first `#` and split at `?`, a path followed by a lone `?` gives that path and empty query text. */
  lemma LoneQueryHalves(path: string)
    requires '#' !in path && '?' !in path
    ensures Split(Before("/" + (path + "?"), '#'), '?') == ["/" + path, ""]
  {
    var body := "/" + path;
    assert "/" + (path + "?") == body + ['?'] + "";
    assert '#' !in body + ['?'] + "";
    SplitFree(body + ['?'] + "", '#');
    SplitAfter(body, "", '?');
    SplitFree("", '?');
  }

  /** A fragment whose only `?` ends it gives the codec's parse of the empty query text, not of nothing. */
  lemma ParseLoneQueryMark(path: string, sep: string, eq: string, codec: QueryCodec)
    requires '#' !in path && '?' !in path && NoLineTerminator(path)
    ensures Parse(Some("#!/" + path + "?"), sep, eq, codec)
            == Route(KeptSegments(Split("/" + path, '/')), codec.parse(Some(""), OrDefault(sep, "&"), OrDefault(eq, "=")))
  {
    NoBreakConcat(path, "?");
    assert "#!/" + path + "?" == "#!/" + (path + "?");
    ParseMarkedText(path + "?", sep, eq, codec);
    LoneQueryHalves(path);
  }

  /** Cut at the first `#` and split at `?`, a path followed by `#` gives that path alone. */
  lemma CutAtHashHalves(path: string, rest: string)
    requires '#' !in path && '?' !in path
    ensures Split(Before("/" + (path + "#" + rest), '#'), '?') == ["/" + path]
  {
    var body := "/" + path;
    assert "/" + (path + "#" + rest) == body + ['#'] + rest;
    SplitAfter(body, rest, '#');
    SplitFree(body, '?');
  }

  /** A later `#` ends the fragment: what follows it is ignored, and without `?` there is no query text. */
  lemma ParseCutAtHash(path: string, rest: string, sep: string, eq: string, codec: QueryCodec)
    requires '#' !in path && '?' !in path && NoLineTerminator(path) && NoLineTerminator(rest)
    ensures Parse(Some("#!/" + path + "#" + rest), sep, eq, codec)
            == Route(KeptSegments(Split("/" + path, '/')), codec.parse(None, OrDefault(sep, "&"), OrDefault(eq, "=")))
  {
    var x := path + "#" + rest;
    NoBreakConcat(path, "#");
    NoBreakConcat(path + "#", rest);
    assert "#!/" + path + "#" + rest == "#!/" + x;
    ParseMarkedText(x, sep, eq, codec);
    CutAtHashHalves(path, rest);
  }
}
