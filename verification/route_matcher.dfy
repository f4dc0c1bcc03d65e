/**
 * `hashbang.matches(fragment, route, options)`: the fragment is reduced to a subject text, the
 * route is compiled to an anchored pattern in which each `:name` placeholder captures one or more
 * characters other than `/`, and the captures are bound to the placeholder names left to right.
 *
 * The pattern is matched deterministically: a placeholder runs to the next `/`, and in a route
 * what follows a placeholder is always `/` or the end, so a capture is the maximal run of
 * characters other than `/`. `Generates` is the backtracking reading of the same pattern; the
 * two are proved to agree.
 */
module RouteMatcher {
  import opened Wrappers
  import opened Seqs
  import opened Text
  import Fragment

  /** `matchesDefaults` and the options `matches` reads. */
  datatype Options = Options(isIgnoreCase: bool, isIgnoreEndSlash: bool)

  const Defaults: Options := Options(false, true)

  /** A route after tokenising: literal characters and `:name` placeholders. */
  datatype Token = Lit(c: char) | Capture(name: string)

  /** The compiled pattern: its tokens and whether one final `/` may be present or not. */
  datatype Pattern = Pattern(tokens: seq<Token>, optionalSlash: bool)

  /** The object `matches` returns on success; `params` is `null` when nothing was bound. */
  datatype MatchResult = MatchResult(route: string, params: Option<map<string, string>>)

  // ---------------------------------------------------------------------------------------------
  // The subject

  /** `replace(/^#!\//, '')`. */
  function StripMarker(s: string): (r: string)
    ensures "#!/" <= s ==> s == "#!/" + r
    ensures !("#!/" <= s) ==> r == s
  {
    if "#!/" <= s then s[3..] else s
  }

  /**
   * The text the route is matched against: every `#` after the first is deleted, the marker
   * `#!/` is stripped, the text is cut at the first `?` and a `/` is put in front.
   */
  function Subject(fragment: string): (r: string)
    ensures r != [] && r[0] == '/' && '?' !in r
  {
    var pieces := Split(fragment, '#');
    "/" + Before(StripMarker("#" + Concat(pieces[1..])), '?')
  }

  // ---------------------------------------------------------------------------------------------
  // Compiling the route

  /** The length of the leading run of characters other than `/`. */
  function RunLength(s: string): (n: nat)
    ensures n <= |s|
    ensures forall k :: 0 <= k < n ==> s[k] != '/'
    ensures n < |s| ==> s[n] == '/'
    decreases |s|
  {
    if s == [] || s[0] == '/' then 0 else 1 + RunLength(s[1..])
  }

  /**
   * The scan of `/:([^\/]+)/g` over the route: a `:` followed by at least one character other
   * than `/` opens a placeholder whose name is the whole run of such characters; every other
   * character is a literal.
   */
  function Tokenize(route: string): (toks: seq<Token>)
    decreases |route|
  {
    if route == [] then []
    else if route[0] == ':' && RunLength(route[1..]) > 0 then
      var n := RunLength(route[1..]);
      [Capture(route[1..n + 1])] + Tokenize(route[n + 1..])
    else [Lit(route[0])] + Tokenize(route[1..])
  }

  /** The route text the tokens were read from. */
  function Spell(toks: seq<Token>): string
    decreases |toks|
  {
    if toks == [] then ""
    else (match toks[0] case Lit(c) => [c] case Capture(n) => ":" + n) + Spell(toks[1..])
  }

  /** The placeholder names, left to right: the keys the exec loop collects. */
  function Names(toks: seq<Token>): (names: seq<string>)
    ensures |names| <= |toks|
    decreases |toks|
  {
    if toks == [] then []
    else (if toks[0].Capture? then [toks[0].name] else []) + Names(toks[1..])
  }

  /**
   * What tokenising guarantees: a placeholder name is non-empty and free of `/`, and a
   * placeholder is followed by a literal `/` or by nothing.
   */
  predicate WellFormed(toks: seq<Token>) {
    forall i :: 0 <= i < |toks| && toks[i].Capture? ==>
      && toks[i].name != "" && '/' !in toks[i].name
      && (i + 1 == |toks| || toks[i + 1] == Lit('/'))
  }

  /**
   * The route with `isIgnoreEndSlash`: `?` is appended when it ends in `/`, which makes that
   * last `/` optional, and `/?` otherwise; without the option the route is used as it is.
   */
  function Compile(route: string, opts: Options): (p: Pattern)
    ensures p.optionalSlash == opts.isIgnoreEndSlash
  {
    if !opts.isIgnoreEndSlash then Pattern(Tokenize(route), false)
    else if route != [] && route[|route| - 1] == '/' then Pattern(Tokenize(route[..|route| - 1]), true)
    else Pattern(Tokenize(route), true)
  }

  // ---------------------------------------------------------------------------------------------
  // Matching

  /** ASCII lower case. */
  function Lower(c: char): char {
    if 'A' <= c <= 'Z' then (c as int + 32) as char else c
  }

  /** Two characters a literal of the pattern and the subject agree on, under the `i` flag or not. */
  predicate CharEq(a: char, b: char, ignoreCase: bool) {
    a == b || (ignoreCase && Lower(a) == Lower(b))
  }

  /**
   * The deterministic matcher: a literal must match the next character, a placeholder takes the
   * maximal run of characters other than `/` and needs at least one, and at the end of the
   * tokens only nothing, or a single `/` when it is optional, may remain.
   */
  function MatchTokens(toks: seq<Token>, s: string, optionalSlash: bool, ignoreCase: bool): (r: Option<seq<string>>)
    ensures r.Some? ==> |r.value| == |Names(toks)|
    decreases |toks|
  {
    if toks == [] then (if s == "" || (optionalSlash && s == "/") then Some([]) else None)
    else match toks[0]
      case Lit(c) =>
        if s != [] && CharEq(c, s[0], ignoreCase) then MatchTokens(toks[1..], s[1..], optionalSlash, ignoreCase)
        else None
      case Capture(_) =>
        var n := RunLength(s);
        if n == 0 then None
        else match MatchTokens(toks[1..], s[n..], optionalSlash, ignoreCase)
          case None => None
          case Some(caps) => Some([s[..n]] + caps)
  }

  /**
   * The anchored pattern accepts `s` with the captures `caps`: the reading of the compiled
   * regular expression in which a placeholder may take any non-empty run of characters other
   * than `/`.
   */
  predicate Generates(toks: seq<Token>, s: string, caps: seq<string>, optionalSlash: bool, ignoreCase: bool)
    decreases |toks|
  {
    if toks == [] then caps == [] && (s == "" || (optionalSlash && s == "/"))
    else match toks[0]
      case Lit(c) => s != [] && CharEq(c, s[0], ignoreCase) && Generates(toks[1..], s[1..], caps, optionalSlash, ignoreCase)
      case Capture(_) =>
        && caps != [] && caps[0] != "" && '/' !in caps[0] && caps[0] <= s
        && Generates(toks[1..], s[|caps[0]|..], caps[1..], optionalSlash, ignoreCase)
  }

  /**
   * The binding loop over `keys`: each capture that is non-empty (truthy) is stored under its
   * name, creating the result object at the first one.
   */
  function Bind(ret: Option<map<string, string>>, names: seq<string>, caps: seq<string>): (r: Option<map<string, string>>)
    requires |names| == |caps|
    ensures ret.Some? ==> r.Some?
    decreases |names|
  {
    if names == [] then ret
    else
      var next := if caps[0] != "" then Some(ret.GetOr(map[])[names[0] := caps[0]]) else ret;
      Bind(next, names[1..], caps[1..])
  }

  function Params(names: seq<string>, caps: seq<string>): Option<map<string, string>>
    requires |names| == |caps|
  {
    Bind(None, names, caps)
  }

  /** `hashbang.matches(fragment, route, options)`; `None` stands for a fragment that is not a string. */
  function Matches(fragment: Option<string>, route: string, opts: Options): (r: Option<MatchResult>)
    ensures fragment.None? ==> r.None?
    ensures r.Some? ==> r.value.route == route
  {
    match fragment
    case None => None
    case Some(f) =>
      var p := Compile(route, opts);
      match MatchTokens(p.tokens, Subject(f), p.optionalSlash, opts.isIgnoreCase)
      case None => None
      case Some(caps) =>
        CompileNames(route, opts);
        Some(MatchResult(route, Params(Names(Tokenize(route)), caps)))
  }

  // ---------------------------------------------------------------------------------------------
  // Properties of the subject

  /** A text without `#` reduces to the subject `/#`. */
  lemma SubjectWithoutHash(f: string)
    requires '#' !in f
    ensures Subject(f) == "/#"
  {
    SplitFree(f, '#');
    var h := "#" + Concat([]);
    assert h == "#";
    assert !("#!/" <= h);
    SplitFree(h, '?');
  }

  /**
   * `#!`, a path text that starts with `/` and holds no `#` or `?`, and a query tail without `#`
   * reduce to that path text.
   */
  lemma SubjectOfMarked(body: string, qs: string)
    requires body != [] && body[0] == '/' && '#' !in body && '?' !in body && '#' !in qs
    ensures Subject("#!" + body + Fragment.QueryTail(qs)) == body
  {
    var tail := Fragment.QueryTail(qs);
    var f := "#!" + body + tail;
    assert '#' !in tail;
    MarkedOneHash(body, tail);
    OneHash(f);
    StripMarked(body, tail);
    BeforeQuery(body[1..], qs);
    assert body == "/" + body[1..];
  }

  /** What `stringify` writes for an array path reduces to its path text. */
  lemma SubjectOfStringified(p: seq<string>, qs: string)
    requires '#' !in qs
    ensures Subject("#!" + Fragment.PathText(p) + Fragment.QueryTail(qs)) == Fragment.PathText(p)
  {
    Fragment.PathTextChars(p);
    SubjectOfMarked(Fragment.PathText(p), qs);
  }

  /** Stripping the marker from `#!` and a text that starts with `/` leaves the rest of that text. */
  lemma StripMarked(body: string, tail: string)
    requires body != [] && body[0] == '/'
    ensures StripMarker("#!" + body + tail) == body[1..] + tail
  {
    Fragment.MarkerSlash(body, tail);
    var f := "#!" + body + tail;
    assert "/" + f[3..] == "/" + (body[1..] + tail) by { assert body == "/" + body[1..]; }
  }

  lemma MarkedOneHash(body: string, tail: string)
    requires '#' !in body && '#' !in tail
    ensures var f := "#!" + body + tail;
            f[0] == '#' && '#' !in f[1..]
  {
    var f := "#!" + body + tail;
    assert f[1..] == "!" + body + tail;
  }

  /** A text that starts with its only `#` is unchanged by deleting the later ones. */
  lemma OneHash(f: string)
    requires f != [] && f[0] == '#' && '#' !in f[1..]
    ensures "#" + Concat(Split(f, '#')[1..]) == f
  {
    var after := f[1..];
    assert f == "" + ['#'] + after;
    SplitAfter("", after, '#');
    SplitFree(after, '#');
    assert Split(f, '#')[1..] == [after];
  }

  /** The text before the first `?` of a `?`-free text followed by a query tail is that text. */
  lemma BeforeQuery(text: string, qs: string)
    requires '?' !in text
    ensures Before(text + Fragment.QueryTail(qs), '?') == text
  {
    if qs == "" {
      assert text + Fragment.QueryTail(qs) == text;
      SplitFree(text, '?');
    } else {
      assert text + Fragment.QueryTail(qs) == text + ['?'] + qs;
      SplitAfter(text, qs, '?');
    }
  }

  // ---------------------------------------------------------------------------------------------
  // Properties of tokenising and compiling

  /** Tokenising loses nothing: spelling the tokens gives the route back. */
  lemma {:induction false} TokenizeSpell(route: string)
    ensures Spell(Tokenize(route)) == route
    decreases |route|
  {
    if route != [] {
      if route[0] == ':' && RunLength(route[1..]) > 0 {
        var n := RunLength(route[1..]);
        TokenizeSpell(route[n + 1..]);
        SpellCaptureStep(route, n);
      } else {
        TokenizeSpell(route[1..]);
        SpellLitStep(route);
      }
    }
  }

  lemma SpellCaptureStep(route: string, n: nat)
    requires route != [] && route[0] == ':' && n == RunLength(route[1..]) > 0
    requires Spell(Tokenize(route[n + 1..])) == route[n + 1..]
    ensures Spell(Tokenize(route)) == route
  {
    var name, rest := route[1..n + 1], route[n + 1..];
    assert Tokenize(route) == [Capture(name)] + Tokenize(rest);
    SpellCons(Capture(name), Tokenize(rest));
    SliceJoin(route, n + 1);
  }

  lemma SpellLitStep(route: string)
    requires route != [] && !(route[0] == ':' && RunLength(route[1..]) > 0)
    requires Spell(Tokenize(route[1..])) == route[1..]
    ensures Spell(Tokenize(route)) == route
  {
    assert Tokenize(route) == [Lit(route[0])] + Tokenize(route[1..]);
    SpellCons(Lit(route[0]), Tokenize(route[1..]));
    assert route == [route[0]] + route[1..];
  }

  /** A text that starts with `:` is `:`, then its slice up to `j`, then the rest. */
  lemma SliceJoin(s: string, j: nat)
    requires 1 <= j <= |s| && s[0] == ':'
    ensures s == ":" + s[1..j] + s[j..]
  {
    assert s == s[..1] + s[1..j] + s[j..];
    assert s[..1] == ":";
  }

  lemma SpellCons(t: Token, toks: seq<Token>)
    ensures Spell([t] + toks) == (match t case Lit(c) => [c] case Capture(n) => ":" + n) + Spell(toks)
  {
    assert ([t] + toks)[1..] == toks;
  }

  /** The first token read from a route that starts with `/` is a literal `/`. */
  lemma TokenizeSlashFirst(route: string)
    requires route != [] && route[0] == '/'
    ensures Tokenize(route) != [] && Tokenize(route)[0] == Lit('/')
  {
  }

  /** Tokenising yields well-formed tokens. */
  lemma {:induction false} TokenizeWellFormed(route: string)
    ensures WellFormed(Tokenize(route))
    decreases |route|
  {
    if route != [] {
      var toks := Tokenize(route);
      if route[0] == ':' && RunLength(route[1..]) > 0 {
        var n := RunLength(route[1..]);
        var rest := route[n + 1..];
        TokenizeWellFormed(rest);
        assert toks == [Capture(route[1..n + 1])] + Tokenize(rest);
        var name := route[1..n + 1];
        assert '/' !in name by {
          forall k | 0 <= k < n ensures name[k] != '/' { assert route[1..][k] == name[k]; }
        }
        if rest != [] {
          assert rest[0] == '/' by { assert route[1..][n] == rest[0]; }
          TokenizeSlashFirst(rest);
        }
        WellFormedCons(Capture(route[1..n + 1]), Tokenize(rest));
      } else {
        TokenizeWellFormed(route[1..]);
        WellFormedCons(Lit(route[0]), Tokenize(route[1..]));
      }
    }
  }

  lemma WellFormedCons(t: Token, toks: seq<Token>)
    requires WellFormed(toks)
    requires t.Capture? ==> t.name != "" && '/' !in t.name && (toks == [] || toks[0] == Lit('/'))
    ensures WellFormed([t] + toks)
  {
    var all := [t] + toks;
    forall i | 0 < i < |all| ensures all[i] == toks[i - 1] { }
  }

  /** A `/` appended to a route becomes one more literal token at the end. */
  lemma {:induction false} TokenizeSlash(route: string)
    ensures Tokenize(route + "/") == Tokenize(route) + [Lit('/')]
    decreases |route|
  {
    if route == [] {
      assert route + "/" == "/";
    } else if route[0] == ':' && RunLength(route[1..]) > 0 {
      var n := RunLength(route[1..]);
      TokenizeSlash(route[n + 1..]);
      TokenizeSlashCapture(route, n);
    } else {
      TokenizeSlash(route[1..]);
      TokenizeSlashLit(route);
    }
  }

  /** The step of `TokenizeSlash` past a placeholder. */
  lemma TokenizeSlashCapture(route: string, n: nat)
    requires route != [] && route[0] == ':' && n == RunLength(route[1..]) > 0
    requires Tokenize(route[n + 1..] + "/") == Tokenize(route[n + 1..]) + [Lit('/')]
    ensures Tokenize(route + "/") == Tokenize(route) + [Lit('/')]
  {
    var r := route + "/";
    RunLengthAppendSlash(route[1..]);
    SlashSlices(route, n + 1);
    var t := [Capture(route[1..n + 1])];
    assert Tokenize(r) == t + Tokenize(r[n + 1..]);
    assert Tokenize(route) == t + Tokenize(route[n + 1..]);
    AppendAssoc(t, Tokenize(route[n + 1..]), [Lit('/')]);
  }

  /** Slicing a text with `/` appended, at or after its first character. */
  lemma SlashSlices(route: string, j: nat)
    requires 1 <= j <= |route|
    ensures var r := route + "/";
      r[0] == route[0] && r[1..] == route[1..] + "/" && r[1..j] == route[1..j] && r[j..] == route[j..] + "/"
  {
  }

  /** The step of `TokenizeSlash` past a literal character. */
  lemma TokenizeSlashLit(route: string)
    requires route != [] && !(route[0] == ':' && RunLength(route[1..]) > 0)
    requires Tokenize(route[1..] + "/") == Tokenize(route[1..]) + [Lit('/')]
    ensures Tokenize(route + "/") == Tokenize(route) + [Lit('/')]
  {
    var r := route + "/";
    SlashSlices(route, 1);
    if route[0] == ':' {
      RunLengthAppendSlash(route[1..]);
    }
    var t := [Lit(route[0])];
    assert Tokenize(r) == t + Tokenize(r[1..]);
    assert Tokenize(route) == t + Tokenize(route[1..]);
    AppendAssoc(t, Tokenize(route[1..]), [Lit('/')]);
  }

  /** A `/` appended after a text does not change the length of its leading run. */
  lemma {:induction false} RunLengthAppendSlash(s: string)
    ensures RunLength(s + "/") == RunLength(s)
    decreases |s|
  {
    if s != [] && s[0] != '/' {
      assert (s + "/")[1..] == s[1..] + "/";
      RunLengthAppendSlash(s[1..]);
    }
  }

  /**
   * When the route ends in `/` and that `/` is made optional, the compiled tokens are those of
   * the route without its last literal `/`, and the placeholder names are unchanged.
   */
  lemma CompileEndSlash(route: string, opts: Options)
    requires opts.isIgnoreEndSlash && route != [] && route[|route| - 1] == '/'
    ensures Tokenize(route) == Compile(route, opts).tokens + [Lit('/')]
  {
    var front := route[..|route| - 1];
    assert front + "/" == route;
    TokenizeSlash(front);
  }

  lemma {:induction false} NamesAppendLit(toks: seq<Token>, c: char)
    ensures Names(toks + [Lit(c)]) == Names(toks)
    decreases |toks|
  {
    if toks != [] {
      assert (toks + [Lit(c)])[1..] == toks[1..] + [Lit(c)];
      NamesAppendLit(toks[1..], c);
    }
  }

  /** Compiling keeps the placeholder names and well-formedness of the route's tokens. */
  lemma CompileNames(route: string, opts: Options)
    ensures Names(Compile(route, opts).tokens) == Names(Tokenize(route))
    ensures WellFormed(Compile(route, opts).tokens)
  {
    var p := Compile(route, opts);
    TokenizeWellFormed(route);
    if opts.isIgnoreEndSlash && route != [] && route[|route| - 1] == '/' {
      CompileEndSlash(route, opts);
      NamesAppendLit(p.tokens, '/');
      WellFormedFront(p.tokens, '/');
    }
  }

  /** Dropping a final literal keeps tokens well-formed. */
  lemma WellFormedFront(toks: seq<Token>, c: char)
    requires WellFormed(toks + [Lit(c)])
    ensures WellFormed(toks)
  {
    var all := toks + [Lit(c)];
    forall i | 0 <= i < |toks| && toks[i].Capture?
      ensures toks[i].name != "" && '/' !in toks[i].name && (i + 1 == |toks| || toks[i + 1] == Lit('/'))
    {
      assert toks[i] == all[i];
      if i + 1 < |toks| { assert toks[i + 1] == all[i + 1]; }
    }
  }

  // ---------------------------------------------------------------------------------------------
  // The matcher agrees with the pattern

  /** What the matcher returns is accepted by the pattern. */
  lemma {:induction false} MatchSound(toks: seq<Token>, s: string, optionalSlash: bool, ignoreCase: bool)
    ensures var r := MatchTokens(toks, s, optionalSlash, ignoreCase);
            r.Some? ==> Generates(toks, s, r.value, optionalSlash, ignoreCase)
    decreases |toks|
  {
    var r := MatchTokens(toks, s, optionalSlash, ignoreCase);
    if toks != [] && r.Some? {
      match toks[0]
      case Lit(c) =>
        MatchSound(toks[1..], s[1..], optionalSlash, ignoreCase);
      case Capture(_) =>
        var n := RunLength(s);
        MatchSound(toks[1..], s[n..], optionalSlash, ignoreCase);
        var caps := r.value;
        assert caps[0] == s[..n] && caps[1..] == MatchTokens(toks[1..], s[n..], optionalSlash, ignoreCase).value;
        assert '/' !in caps[0] by {
          forall k | 0 <= k < n ensures caps[0][k] != '/' { }
        }
    }
  }

  /** Only `/` equals `/`, with or without the `i` flag. */
  lemma SlashEq(b: char, ignoreCase: bool)
    requires CharEq('/', b, ignoreCase)
    ensures b == '/'
  {
  }

  /** A non-empty, `/`-free prefix followed by `/` or by the end is the leading run. */
  lemma {:induction false} RunLengthOfPrefix(cap: string, s: string)
    requires cap <= s && '/' !in cap
    requires |cap| == |s| || s[|cap|] == '/'
    ensures RunLength(s) == |cap|
    decreases |cap|
  {
    if cap != [] {
      assert cap[0] == s[0];
      RunLengthOfPrefix(cap[1..], s[1..]);
    }
  }

  /**
   * On well-formed tokens the matcher finds every acceptance of the pattern; so the captures of
   * an acceptance are unique, and backtracking could not find another.
   */
  /** A capture followed by nothing or by a `/` literal ends at the end of the text or at a `/`. */
  lemma CaptureStops(rest: seq<Token>, s: string, cap: string, caps: seq<string>, optionalSlash: bool, ignoreCase: bool)
    requires rest == [] || rest[0] == Lit('/')
    requires cap <= s && Generates(rest, s[|cap|..], caps, optionalSlash, ignoreCase)
    ensures |cap| == |s| || s[|cap|] == '/'
  {
    if |cap| < |s| {
      var after := s[|cap|..];
      assert after[0] == s[|cap|];
      if rest == [] {
        assert after == "/";
      } else {
        SlashEq(after[0], ignoreCase);
      }
    }
  }

  lemma {:induction false} MatchComplete(toks: seq<Token>, s: string, caps: seq<string>, optionalSlash: bool, ignoreCase: bool)
    requires WellFormed(toks)
    requires Generates(toks, s, caps, optionalSlash, ignoreCase)
    ensures MatchTokens(toks, s, optionalSlash, ignoreCase) == Some(caps)
    decreases |toks|
  {
    if toks != [] {
      WellFormedTail(toks);
      match toks[0]
      case Lit(c) =>
        MatchComplete(toks[1..], s[1..], caps, optionalSlash, ignoreCase);
      case Capture(_) =>
        MatchComplete(toks[1..], s[|caps[0]|..], caps[1..], optionalSlash, ignoreCase);
        assert toks[1..] == [] || toks[1..][0] == Lit('/');
        CaptureStep(toks, s, caps, optionalSlash, ignoreCase);
    }
  }

  /** The capture case of `MatchComplete`, given that the rest of the tokens match. */
  lemma CaptureStep(toks: seq<Token>, s: string, caps: seq<string>, optionalSlash: bool, ignoreCase: bool)
    requires toks != [] && toks[0].Capture? && (toks[1..] == [] || toks[1..][0] == Lit('/'))
    requires Generates(toks, s, caps, optionalSlash, ignoreCase)
    requires MatchTokens(toks[1..], s[|caps[0]|..], optionalSlash, ignoreCase) == Some(caps[1..])
    ensures MatchTokens(toks, s, optionalSlash, ignoreCase) == Some(caps)
  {
    var cap := caps[0];
    CaptureStops(toks[1..], s, cap, caps[1..], optionalSlash, ignoreCase);
    RunLengthOfPrefix(cap, s);
    assert s[..|cap|] == cap;
    assert caps == [cap] + caps[1..];
  }

  lemma WellFormedTail(toks: seq<Token>)
    requires WellFormed(toks) && toks != []
    ensures WellFormed(toks[1..])
  {
    var tail := toks[1..];
    forall i | 0 <= i < |tail| && tail[i].Capture?
      ensures tail[i].name != "" && '/' !in tail[i].name && (i + 1 == |tail| || tail[i + 1] == Lit('/'))
    {
      assert tail[i] == toks[i + 1];
      if i + 1 < |tail| { assert tail[i + 1] == toks[i + 2]; }
    }
  }

  /** Every capture the matcher returns is non-empty and free of `/`. */
  lemma {:induction false} CapturesNonEmpty(toks: seq<Token>, s: string, optionalSlash: bool, ignoreCase: bool)
    ensures var r := MatchTokens(toks, s, optionalSlash, ignoreCase);
            r.Some? ==> forall i :: 0 <= i < |r.value| ==> r.value[i] != "" && '/' !in r.value[i]
  {
    var r := MatchTokens(toks, s, optionalSlash, ignoreCase);
    if r.Some? {
      MatchSound(toks, s, optionalSlash, ignoreCase);
      GeneratedCaptures(toks, s, r.value, optionalSlash, ignoreCase);
    }
  }

  lemma {:induction false} GeneratedCaptures(toks: seq<Token>, s: string, caps: seq<string>, optionalSlash: bool, ignoreCase: bool)
    requires Generates(toks, s, caps, optionalSlash, ignoreCase)
    ensures forall i :: 0 <= i < |caps| ==> caps[i] != "" && '/' !in caps[i]
    decreases |toks|
  {
    if toks != [] {
      match toks[0]
      case Lit(c) =>
        GeneratedCaptures(toks[1..], s[1..], caps, optionalSlash, ignoreCase);
      case Capture(_) =>
        GeneratedCaptures(toks[1..], s[|caps[0]|..], caps[1..], optionalSlash, ignoreCase);
        assert forall i :: 1 <= i < |caps| ==> caps[i] == caps[1..][i - 1];
    }
  }

  // ---------------------------------------------------------------------------------------------
  // Properties of binding

  /** `name` does not occur in `names` after index `i`: index `i` holds its last capture. */
  predicate LastAt(names: seq<string>, i: int)
    requires 0 <= i < |names|
  {
    forall j :: i < j < |names| ==> names[j] != names[i]
  }

  /** With non-empty captures, binding has a result exactly when it started with one or binds a name. */
  lemma BindSome(ret: Option<map<string, string>>, names: seq<string>, caps: seq<string>)
    requires |names| == |caps|
    requires forall i :: 0 <= i < |caps| ==> caps[i] != ""
    ensures Bind(ret, names, caps).None? <==> ret.None? && names == []
  {
  }

  /** With non-empty captures, binding adds exactly the names to the keys it started with. */
  lemma {:induction false} BindKeys(ret: Option<map<string, string>>, names: seq<string>, caps: seq<string>)
    requires |names| == |caps|
    requires forall i :: 0 <= i < |caps| ==> caps[i] != ""
    ensures var r := Bind(ret, names, caps);
            r.Some? ==> r.value.Keys == ret.GetOr(map[]).Keys + (set x | x in names)
    decreases |names|
  {
    if names != [] {
      var next := Some(ret.GetOr(map[])[names[0] := caps[0]]);
      BindKeys(next, names[1..], caps[1..]);
      var tail := names[1..];
      assert names == [names[0]] + tail;
      assert (set x | x in names) == {names[0]} + (set x | x in tail);
    }
  }

  /** Binding stores under each name its last non-empty capture. */
  lemma {:induction false} BindLast(ret: Option<map<string, string>>, names: seq<string>, caps: seq<string>)
    requires |names| == |caps|
    requires forall i :: 0 <= i < |caps| ==> caps[i] != ""
    ensures var r := Bind(ret, names, caps);
            forall i :: 0 <= i < |names| && LastAt(names, i) ==> r.Some? && names[i] in r.value && r.value[names[i]] == caps[i]
    decreases |names|
  {
    if names != [] {
      var next := Some(ret.GetOr(map[])[names[0] := caps[0]]);
      BindLast(next, names[1..], caps[1..]);
      BindKeeps(next, names[1..], caps[1..]);
      var r := Bind(ret, names, caps);
      var tail := names[1..];
      forall i | 0 <= i < |names| && LastAt(names, i)
        ensures r.Some? && names[i] in r.value && r.value[names[i]] == caps[i]
      {
        if i == 0 {
          assert names[0] !in tail by {
            forall j | 0 <= j < |tail| ensures tail[j] != names[0] { assert tail[j] == names[j + 1]; }
          }
        } else {
          assert tail[i - 1] == names[i] && caps[1..][i - 1] == caps[i];
          assert LastAt(tail, i - 1) by {
            forall j | i - 1 < j < |tail| ensures tail[j] != tail[i - 1] { assert tail[j] == names[j + 1]; }
          }
        }
      }
    }
  }

  /** Binding leaves the keys it does not bind as they were. */
  lemma {:induction false} BindKeeps(ret: Option<map<string, string>>, names: seq<string>, caps: seq<string>)
    requires |names| == |caps|
    requires forall i :: 0 <= i < |caps| ==> caps[i] != ""
    ensures var r := Bind(ret, names, caps);
            forall k :: k in ret.GetOr(map[]) && k !in names ==> r.Some? && k in r.value && r.value[k] == ret.GetOr(map[])[k]
    decreases |names|
  {
    if names != [] {
      var next := Some(ret.GetOr(map[])[names[0] := caps[0]]);
      BindKeeps(next, names[1..], caps[1..]);
      var tail := names[1..];
      forall k | k in ret.GetOr(map[]) && k !in names ensures k !in tail {
        forall j | 0 <= j < |tail| ensures tail[j] != k { assert tail[j] == names[j + 1]; }
      }
    }
  }

  /**
   * `params` of a successful match: `null` exactly when the route has no placeholder, otherwise
   * an object whose keys are the placeholder names, each holding the last capture made for it.
   */
  lemma ParamsSpec(names: seq<string>, caps: seq<string>)
    requires |names| == |caps|
    requires forall i :: 0 <= i < |caps| ==> caps[i] != ""
    ensures var r := Params(names, caps);
            && (r.None? <==> names == [])
            && (r.Some? ==>
                  && r.value.Keys == (set x | x in names)
                  && forall i :: 0 <= i < |names| && LastAt(names, i) ==> r.value[names[i]] == caps[i])
  {
    BindSome(None, names, caps);
    BindKeys(None, names, caps);
    BindLast(None, names, caps);
  }

  // ---------------------------------------------------------------------------------------------
  // Properties of `matches`

  /**
   * `matches` succeeds exactly when the compiled pattern accepts the subject, and then returns
   * the route and the captures of that acceptance bound to the placeholder names.
   */
  lemma MatchesAccepted(f: string, route: string, opts: Options, caps: seq<string>)
    requires var p := Compile(route, opts);
             Generates(p.tokens, Subject(f), caps, p.optionalSlash, opts.isIgnoreCase)
    ensures |caps| == |Names(Tokenize(route))|
    ensures Matches(Some(f), route, opts) == Some(MatchResult(route, Params(Names(Tokenize(route)), caps)))
  {
    var p := Compile(route, opts);
    CompileNames(route, opts);
    MatchComplete(p.tokens, Subject(f), caps, p.optionalSlash, opts.isIgnoreCase);
  }

  /** `matches` succeeds exactly when the compiled pattern accepts the subject with some captures. */
  lemma MatchesRejected(f: string, route: string, opts: Options)
    ensures Matches(Some(f), route, opts).Some?
            <==> exists caps :: Generates(Compile(route, opts).tokens, Subject(f), caps, opts.isIgnoreEndSlash, opts.isIgnoreCase)
  {
    var p := Compile(route, opts);
    var r := MatchTokens(p.tokens, Subject(f), p.optionalSlash, opts.isIgnoreCase);
    assert Matches(Some(f), route, opts).None? <==> r.None?;
    if r.Some? {
      MatchSound(p.tokens, Subject(f), p.optionalSlash, opts.isIgnoreCase);
      assert Generates(p.tokens, Subject(f), r.value, p.optionalSlash, opts.isIgnoreCase);
      assert Matches(Some(f), route, opts).Some?;
      assert p.optionalSlash == opts.isIgnoreEndSlash;
      assert Generates(Compile(route, opts).tokens, Subject(f), r.value, opts.isIgnoreEndSlash, opts.isIgnoreCase);
      assert exists caps :: Generates(Compile(route, opts).tokens, Subject(f), caps, opts.isIgnoreEndSlash, opts.isIgnoreCase);
    } else {
      forall caps ensures !Generates(p.tokens, Subject(f), caps, p.optionalSlash, opts.isIgnoreCase) {
        if Generates(p.tokens, Subject(f), caps, p.optionalSlash, opts.isIgnoreCase) {
          MatchesAccepted(f, route, opts, caps);
        }
      }
    }
  }

  /**
   * On a match, `params` is `null` exactly when the route has no placeholder; otherwise its keys
   * are the placeholder names, each with a non-empty, `/`-free value.
   */
  lemma MatchesParams(f: string, route: string, opts: Options)
    ensures var r := Matches(Some(f), route, opts);
            var names := Names(Tokenize(route));
            r.Some? ==>
              && (r.value.params.None? <==> names == [])
              && (r.value.params.Some? ==>
                    && r.value.params.value.Keys == (set x | x in names)
                    && forall k :: k in r.value.params.value ==> r.value.params.value[k] != "" && '/' !in r.value.params.value[k])
  {
    var p := Compile(route, opts);
    var r := MatchTokens(p.tokens, Subject(f), p.optionalSlash, opts.isIgnoreCase);
    if r.Some? {
      var names := Names(Tokenize(route));
      var caps := r.value;
      CompileNames(route, opts);
      CapturesNonEmpty(p.tokens, Subject(f), p.optionalSlash, opts.isIgnoreCase);
      ParamsSpec(names, caps);
      var m := Params(names, caps);
      if m.Some? {
        forall k | k in m.value ensures m.value[k] != "" && '/' !in m.value[k] {
          var i :| 0 <= i < |names| && names[i] == k;
          var j := LastIndex(names, i);
          assert m.value[names[j]] == caps[j];
        }
      }
    }
  }

  /** The last index holding the same name as index `i`. */
  function LastIndex(names: seq<string>, i: int): (j: int)
    requires 0 <= i < |names|
    ensures i <= j < |names| && names[j] == names[i] && LastAt(names, j)
    decreases |names| - i
  {
    if exists k :: i < k < |names| && names[k] == names[i] then
      var k :| i < k < |names| && names[k] == names[i];
      LastIndex(names, k)
    else i
  }

  /** A pattern that ends in a required `/` accepts only texts that end in `/`. */
  lemma {:induction false} GeneratesEndSlash(toks: seq<Token>, s: string, caps: seq<string>, ignoreCase: bool)
    requires toks != [] && toks[|toks| - 1] == Lit('/')
    requires Generates(toks, s, caps, false, ignoreCase)
    ensures s != [] && s[|s| - 1] == '/'
    decreases |toks|
  {
    var rest := toks[1..];
    match toks[0]
    case Lit(c) =>
      if rest == [] {
        SlashEq(s[0], ignoreCase);
      } else {
        GeneratesEndSlash(rest, s[1..], caps, ignoreCase);
        assert s[1..][|s| - 2] == s[|s| - 1];
      }
    case Capture(_) =>
      var tail := s[|caps[0]|..];
      GeneratesEndSlash(rest, tail, caps[1..], ignoreCase);
      assert tail[|tail| - 1] == s[|s| - 1];
  }

  /**
   * Without `isIgnoreEndSlash`, a route that ends in `/` matches only fragments whose subject
   * ends in `/`.
   */
  lemma MatchesStrictEndSlash(f: string, route: string, opts: Options)
    requires !opts.isIgnoreEndSlash && route != [] && route[|route| - 1] == '/'
    ensures Matches(Some(f), route, opts).Some? ==> Subject(f)[|Subject(f)| - 1] == '/'
  {
    CompiledEndSlash(route, opts);
    var p := Compile(route, opts);
    var r := MatchTokens(p.tokens, Subject(f), false, opts.isIgnoreCase);
    if r.Some? {
      MatchSound(p.tokens, Subject(f), false, opts.isIgnoreCase);
      GeneratesEndSlash(p.tokens, Subject(f), r.value, opts.isIgnoreCase);
    }
  }

  /** Without `isIgnoreEndSlash`, a route that ends in `/` compiles to tokens that end in a literal `/`. */
  lemma CompiledEndSlash(route: string, opts: Options)
    requires !opts.isIgnoreEndSlash && route != [] && route[|route| - 1] == '/'
    ensures var toks := Compile(route, opts).tokens;
            toks != [] && toks[|toks| - 1] == Lit('/')
  {
    var front := route[..|route| - 1];
    assert front + "/" == route;
    TokenizeSlash(front);
  }

  // ---------------------------------------------------------------------------------------------
  // Routes with one placeholder

  /** The tokens of a text read as literals only. */
  function LitTokens(a: string): (toks: seq<Token>)
    ensures |toks| == |a|
    decreases |a|
  {
    if a == [] then [] else [Lit(a[0])] + LitTokens(a[1..])
  }

  /** A text without `:` is read as one literal per character. */
  lemma {:induction false} TokenizeLits(a: string, b: string)
    requires ':' !in a
    ensures Tokenize(a + b) == LitTokens(a) + Tokenize(b)
    decreases |a|
  {
    if a != [] {
      var s := a + b;
      assert s[0] == a[0] && s[1..] == a[1..] + b;
      TokenizeLits(a[1..], b);
    } else {
      assert a + b == b && LitTokens(a) + Tokenize(b) == Tokenize(b);
    }
  }

  /** `:name` with a non-empty, `/`-free name is read as one placeholder. */
  lemma TokenizePlaceholder(name: string)
    requires name != "" && '/' !in name
    ensures Tokenize(":" + name) == [Capture(name)]
  {
    var s := ":" + name;
    RunLengthOfPrefix(name, name);
    assert s[1..] == name && s[1..|name| + 1] == name && s[|name| + 1..] == "";
  }

  /** Literal tokens add no placeholder names. */
  lemma {:induction false} NamesLits(a: string, more: seq<Token>)
    ensures Names(LitTokens(a) + more) == Names(more)
    decreases |a|
  {
    if a != [] {
      LitHead(a, more);
      assert Names(LitTokens(a) + more) == Names(LitTokens(a[1..]) + more);
      NamesLits(a[1..], more);
    } else {
      assert LitTokens(a) + more == more;
    }
  }

  /** Literal tokens consume their own text. */
  lemma {:induction false} LitsStep(a: string, more: seq<Token>, x: string, optionalSlash: bool, ignoreCase: bool)
    ensures MatchTokens(LitTokens(a) + more, a + x, optionalSlash, ignoreCase) == MatchTokens(more, x, optionalSlash, ignoreCase)
    decreases |a|
  {
    if a != [] {
      LitsCons(a, more, x, optionalSlash, ignoreCase);
      LitsStep(a[1..], more, x, optionalSlash, ignoreCase);
    } else {
      assert LitTokens(a) + more == more && a + x == x;
    }
  }

  /** The first literal token consumes the first character. */
  lemma LitsCons(a: string, more: seq<Token>, x: string, optionalSlash: bool, ignoreCase: bool)
    requires a != []
    ensures MatchTokens(LitTokens(a) + more, a + x, optionalSlash, ignoreCase)
         == MatchTokens(LitTokens(a[1..]) + more, a[1..] + x, optionalSlash, ignoreCase)
  {
    var toks, s := LitTokens(a) + more, a + x;
    LitHead(a, more);
    assert s[0] == a[0] && s[1..] == a[1..] + x;
    LitStep(a[0], toks, s, optionalSlash, ignoreCase);
  }

  lemma ParamsOne(name: string, value: string)
    requires value != ""
    ensures Params([name], [value]) == Some(map[name := value])
  {
    var next := Some(map[][name := value]);
    assert [name][1..] == [] && [value][1..] == [];
    assert Bind(None, [name], [value]) == Bind(next, [], []);
    assert map[][name := value] == map[name := value];
  }

  /** Literal tokens start with the first character's literal, then the rest's. */
  lemma LitHead(a: string, more: seq<Token>)
    requires a != []
    ensures (LitTokens(a) + more)[0] == Lit(a[0])
    ensures (LitTokens(a) + more)[1..] == LitTokens(a[1..]) + more
  {
    var head, tail := [Lit(a[0])], LitTokens(a[1..]);
    assert LitTokens(a) == head + tail;
    AppendAssoc(head, tail, more);
    ConsParts(Lit(a[0]), tail + more);
  }

  /** A literal token rejects a different character when case is not ignored. */
  lemma LitMismatch(c: char, toks: seq<Token>, s: string, optionalSlash: bool)
    requires toks != [] && toks[0] == Lit(c) && s != [] && s[0] != c
    ensures MatchTokens(toks, s, optionalSlash, false) == None
  {
  }

  /** A literal token consumes its own character. */
  lemma LitStep(c: char, toks: seq<Token>, s: string, optionalSlash: bool, ignoreCase: bool)
    requires toks != [] && toks[0] == Lit(c) && s != [] && s[0] == c
    ensures MatchTokens(toks, s, optionalSlash, ignoreCase) == MatchTokens(toks[1..], s[1..], optionalSlash, ignoreCase)
  {
    assert CharEq(c, s[0], ignoreCase);
  }

  /** A final placeholder captures a non-empty, `/`-free value followed by nothing or by an optional `/`. */
  lemma CaptureLast(name: string, value: string, tail: string, ignoreCase: bool)
    requires value != "" && '/' !in value && (tail == "" || tail == "/")
    ensures MatchTokens([Capture(name)], value + tail, true, ignoreCase) == Some([value])
  {
    var s := value + tail;
    RunLengthOfPrefix(value, s);
    assert s[..|value|] == value && s[|value|..] == tail;
    assert MatchTokens([], tail, true, ignoreCase) == Some([]);
    assert [Capture(name)][0] == Capture(name) && [Capture(name)][1..] == [];
    assert [value] + [] == [value];
  }

  /** The route `prefix:name/` compiled with its last `/` optional, and its one placeholder name. */
  lemma CompileOne(prefix: string, name: string, opts: Options)
    requires ':' !in prefix && name != "" && '/' !in name && opts.isIgnoreEndSlash
    ensures Compile(prefix + ":" + name + "/", opts).tokens == LitTokens(prefix) + [Capture(name)]
    ensures Names(Tokenize(prefix + ":" + name + "/")) == [name]
  {
    var route := prefix + ":" + name + "/";
    var front := prefix + (":" + name);
    SlashEnded(prefix, name);
    TokenizeLits(prefix, ":" + name);
    TokenizePlaceholder(name);
    TokenizeSlash(front);
    NamesOne(prefix, name);
  }

  /** `prefix:name/` is `prefix:name` followed by its final `/`. */
  lemma SlashEnded(prefix: string, name: string)
    ensures var route, front := prefix + ":" + name + "/", prefix + (":" + name);
      route == front + "/" && route != [] && route[|route| - 1] == '/' && route[..|route| - 1] == front
  {
  }

  /** Literals, one placeholder, and a final `/` name that placeholder only. */
  lemma NamesOne(prefix: string, name: string)
    ensures Names(LitTokens(prefix) + [Capture(name)] + [Lit('/')]) == [name]
  {
    var two := [Capture(name), Lit('/')];
    AppendAssoc(LitTokens(prefix), [Capture(name)], [Lit('/')]);
    assert [Capture(name)] + [Lit('/')] == two;
    NamesLits(prefix, two);
    assert two[1..] == [Lit('/')];
  }

  /**
   * A route `prefix:name/` with literal prefix, under `isIgnoreEndSlash`, matches the fragment
   * `#!prefix value` with or without a final `/`, and binds `name` to `value`.
   */
  lemma MatchesOnePlaceholder(prefix: string, name: string, value: string, tail: string, opts: Options)
    requires prefix != [] && prefix[0] == '/' && ':' !in prefix && '#' !in prefix && '?' !in prefix
    requires name != "" && '/' !in name
    requires value != "" && '/' !in value && '#' !in value && '?' !in value
    requires opts.isIgnoreEndSlash && (tail == "" || tail == "/")
    ensures var route := prefix + ":" + name + "/";
            Matches(Some("#!" + prefix + value + tail), route, opts) == Some(MatchResult(route, Some(map[name := value])))
  {
    var route := prefix + ":" + name + "/";
    var rest := value + tail;
    var body := prefix + rest;
    var f := "#!" + prefix + value + tail;
    assert f == "#!" + body + Fragment.QueryTail("");
    assert body[0] == '/';
    SubjectOfMarked(body, "");
    CompileOne(prefix, name, opts);
    LitsStep(prefix, [Capture(name)], rest, true, opts.isIgnoreCase);
    CaptureLast(name, value, tail, opts.isIgnoreCase);
    ParamsOne(name, value);
  }

  // ---------------------------------------------------------------------------------------------
  // Examples

  /** `matches('#!/id/abc123/', '/id/:id/')` and `matches('#!/id/abc123', '/id/:id/')` bind `id` to `abc123`. */
  lemma MatchesExample(f: string, route: string)
    requires (f == "#!/id/abc123/" || f == "#!/id/abc123") && route == "/id/:id/"
    ensures Matches(Some(f), route, Defaults) == Some(MatchResult(route, Some(map["id" := "abc123"])))
  {
    var tail := f[12..];
    assert f == "#!" + "/id/" + "abc123" + tail;
    assert route == "/id/" + ":" + "id" + "/";
    MatchesOnePlaceholder("/id/", "id", "abc123", tail, Defaults);
  }

  /** `matches('#!/name/abc123/', '/id/:id/')` is `null`. */
  lemma MatchesOtherPath(f: string, route: string)
    requires f == "#!/name/abc123/" && route == "/id/:id/"
    ensures Matches(Some(f), route, Defaults) == None
  {
    var body, prefix, name := "/name/abc123/", "/id/", "id";
    assert f == "#!" + body && route == prefix + ":" + name + "/" && '/' !in name;
    OtherPathRejected(body, prefix, [Capture(name)]);
    OtherPathText(body, prefix);
    PrefixMismatch(f, route, body, prefix, name, Defaults);
  }

  /**
   * A marked fragment whose path the literals and the one placeholder of `prefix:name/` do not
   * match is rejected by that route.
   */
  lemma PrefixMismatch(f: string, route: string, body: string, prefix: string, name: string, opts: Options)
    requires body != [] && body[0] == '/' && '#' !in body && '?' !in body && f == "#!" + body
    requires ':' !in prefix && name != "" && '/' !in name && route == prefix + ":" + name + "/"
    requires opts.isIgnoreEndSlash
    requires MatchTokens(LitTokens(prefix) + [Capture(name)], body, true, opts.isIgnoreCase).None?
    ensures Matches(Some(f), route, opts) == None
  {
    assert "#!" + body + Fragment.QueryTail("") == f;
    SubjectOfMarked(body, "");
    CompileOne(prefix, name, opts);
    MatchesNone(f, route, opts);
  }

  /** `matches` is `null` when the compiled route does not match the subject. */
  lemma MatchesNone(f: string, route: string, opts: Options)
    requires MatchTokens(Compile(route, opts).tokens, Subject(f), opts.isIgnoreEndSlash, opts.isIgnoreCase).None?
    ensures Matches(Some(f), route, opts) == None
  {
  }

  lemma OtherPathRejected(body: string, prefix: string, more: seq<Token>)
    requires body == "/name/abc123/" && prefix == "/id/"
    ensures MatchTokens(LitTokens(prefix) + more, body, true, false) == None
  {
    var toks := LitTokens(prefix) + more;
    LitHead(prefix, more);
    LitStep('/', toks, body, true, false);
    assert prefix[1..] != [] && prefix[1..][0] == 'i' && body[1..][0] == 'n';
    LitHead(prefix[1..], more);
    LitMismatch('i', toks[1..], body[1..], true);
  }

  /** The path and the literal prefix of that example have the shape `PrefixMismatch` needs. */
  lemma OtherPathText(body: string, prefix: string)
    requires body == "/name/abc123/" && prefix == "/id/"
    ensures body != [] && body[0] == '/' && '#' !in body && '?' !in body && ':' !in prefix
  {
  }

  /** With `isIgnoreEndSlash` false, `matches('#!/id/abc123', '/id/:id/')` is `null`. */
  lemma MatchesEndSlashRequired(f: string, route: string)
    requires f == "#!/id/abc123" && route == "/id/:id/"
    ensures Matches(Some(f), route, Options(false, false)) == None
  {
    var body := "/id/abc123";
    EndSlashText(f, body, route);
    SubjectOfMarked(body, "");
    MatchesStrictEndSlash(f, route, Options(false, false));
  }

  /** The fragment and the route of that example have the shape the lemmas above need. */
  lemma EndSlashText(f: string, body: string, route: string)
    requires f == "#!/id/abc123" && body == "/id/abc123" && route == "/id/:id/"
    ensures "#!" + body + Fragment.QueryTail("") == f
    ensures body != [] && body[0] == '/' && '#' !in body && '?' !in body && body[|body| - 1] == '3'
    ensures route != [] && route[|route| - 1] == '/'
  {
    assert Fragment.QueryTail("") == "";
  }
}
