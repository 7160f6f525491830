/** The glob matcher, which compiles a glob to a regular expression and runs that. */
module Glob {
  import opened Bytes
  import opened Wrappers
  import opened GlobRegex

  /// What a glob means.

  datatype Token = Literal(c: char) | AnySegment | AnyPath | AnyDirs

  function Tokens(p: string): seq<Token> {
    if p == "" then []
    else if p[0] != '*' then [Literal(p[0])] + Tokens(p[1..])
    else if |p| == 1 || p[1] != '*' then [AnySegment] + Tokens(p[1..])
    else if |p| == 2 || p[2] != '/' then [AnyPath] + Tokens(p[2..])
    else [AnyDirs] + Tokens(p[3..])
  }

  /** The strings a token stands for. With `oneLine`, the two `**` forms do not cross a line feed. */
  predicate Covers(t: Token, s: string, oneLine: bool) {
    match t
    case Literal(c) => s == [c]
    case AnySegment => '/' !in s
    case AnyPath => oneLine ==> '\n' !in s
    case AnyDirs => (s == "" || s[|s| - 1] == '/') && (oneLine ==> '\n' !in s)
  }

  /** The path splits into pieces that the tokens cover in order. */
  predicate Matches(ts: seq<Token>, path: string, oneLine: bool) {
    if ts == [] then path == "" else
      exists k :: 0 <= k <= |path| && Covers(ts[0], path[..k], oneLine) && Matches(ts[1..], path[k..], oneLine)
  }

  /// The translation.

  function EscapeChar(c: char): string {
    if c in META then ['\\', c] else [c]
  }

  function Body(p: string): string {
    if p == "" then ""
    else if p[0] != '*' then EscapeChar(p[0]) + Body(p[1..])
    else if |p| == 1 || p[1] != '*' then "[^/]*" + Body(p[1..])
    else if |p| == 2 || p[2] != '/' then ".*" + Body(p[2..])
    else "(?:.*/)?" + Body(p[3..])
  }

  /** Each byte taken for the character with its number, as the translator's cast does. */
  function Latin1(bytes: seq<Byte>): (s: string)
    ensures |s| == |bytes|
  {
    seq(|bytes|, i requires 0 <= i < |bytes| => (bytes[i] as int) as char)
  }

  lemma {:induction false} BodyAt(p: string, i: nat)
    requires i < |p|
    ensures Body(p[i..]) ==
      if p[i] != '*' then EscapeChar(p[i]) + Body(p[i + 1..])
      else if |p| == i + 1 || p[i + 1] != '*' then "[^/]*" + Body(p[i + 1..])
      else if |p| == i + 2 || p[i + 2] != '/' then ".*" + Body(p[i + 2..])
      else "(?:.*/)?" + Body(p[i + 3..])
  {
    assert p[i..][1..] == p[i + 1..];
    assert i + 2 <= |p| ==> p[i..][2..] == p[i + 2..];
    assert i + 3 <= |p| ==> p[i..][3..] == p[i + 3..];
  }

  lemma {:induction false} Regroup(done: string, piece: string, rest: string, whole: string)
    requires done + (piece + rest) == whole
    ensures done + piece + rest == whole
  {
  }

  /** The translation loop over the pattern's bytes. */
  method Translate(bytes: seq<Byte>) returns (out: string)
    ensures out == "^" + Body(Latin1(bytes)) + "$"
  {
    var p := Latin1(bytes);
    ghost var whole := "^" + Body(p);
    out := "^";
    var i := 0;
    assert p[0..] == p;
    while i < |p|
      invariant 0 <= i <= |p|
      invariant out + Body(p[i..]) == whole
    {
      BodyAt(p, i);
      if p[i] == '*' {
        if i + 1 < |p| && p[i + 1] == '*' {
          if i + 2 < |p| && p[i + 2] == '/' {
            Regroup(out, "(?:.*/)?", Body(p[i + 3..]), whole);
            out := out + "(?:.*/)?";
            i := i + 3;
          } else {
            Regroup(out, ".*", Body(p[i + 2..]), whole);
            out := out + ".*";
            i := i + 2;
          }
        } else {
          Regroup(out, "[^/]*", Body(p[i + 1..]), whole);
          out := out + "[^/]*";
          i := i + 1;
        }
      } else {
        Regroup(out, EscapeChar(p[i]), Body(p[i + 1..]), whole);
        ghost var escaped := out + EscapeChar(p[i]);
        if p[i] in META {
          out := out + "\\";
        }
        out := out + [p[i]];
        assert out == escaped;
        i := i + 1;
      }
    }
    assert p[i..] == "";
    out := out + "$";
  }

  /// The emitted string parses back to one regular expression per token.

  function TokenRegex(t: Token): Regex {
    match t
    case Literal(c) => Char(c)
    case AnySegment => Star(NotChar('/'))
    case AnyPath => Star(Dot)
    case AnyDirs => Opt(Cat(Star(Dot), Cat(Char('/'), Empty)))
  }

  function Chain(ts: seq<Token>): Regex {
    if ts == [] then Cat(End, Empty) else Cat(TokenRegex(ts[0]), Chain(ts[1..]))
  }

  /** No piece of the emitted string starts with a quantifier or a closing parenthesis. */
  lemma {:induction false} BodyStart(p: string)
    ensures var s := Body(p) + "$"; s != "" && !IsQuantifier(s[0]) && s[0] != ')'
  {
  }

  lemma {:induction false} ParseLiteral(c: char, rest: string)
    requires c != '*' && rest != "" && !IsQuantifier(rest[0])
    ensures ParsePiece(EscapeChar(c) + rest) == Some((Char(c), rest))
  {
    var s := EscapeChar(c) + rest;
    if c in META {
      assert s[2..] == rest;
    } else {
      assert s[1..] == rest;
    }
    assert ParseAtom(s) == Some((Char(c), rest));
  }

  lemma {:induction false} ParseSegment(rest: string)
    requires rest != "" && !IsQuantifier(rest[0])
    ensures ParsePiece("[^/]*" + rest) == Some((TokenRegex(AnySegment), rest))
  {
    var s := "[^/]*" + rest;
    assert s[4..] == "*" + rest && s[4..][1..] == rest;
    assert ParseAtom(s) == Some((NotChar('/'), "*" + rest));
  }

  lemma {:induction false} ParseAnyPath(rest: string)
    requires rest != "" && !IsQuantifier(rest[0])
    ensures ParsePiece(".*" + rest) == Some((TokenRegex(AnyPath), rest))
  {
    var s := ".*" + rest;
    assert s[1..] == "*" + rest && s[1..][1..] == rest;
    assert ParseAtom(s) == Some((Dot, "*" + rest));
  }

  lemma {:induction false} ParseSlash(close: string)
    requires close != "" && close[0] == ')'
    ensures ParseSequence("/" + close) == Some((Cat(Char('/'), Empty), close))
  {
    assert ("/" + close)[1..] == close;
    assert ParseAtom("/" + close) == Some((Char('/'), close));
    assert ParsePiece("/" + close) == Some((Char('/'), close));
    assert ParseSequence(close) == Some((Empty, close));
  }

  /** What stands inside the group, up to its closing parenthesis. */
  lemma {:induction false} ParseDirsInside(close: string)
    requires close != "" && close[0] == ')'
    ensures ParseSequence(".*/" + close) == Some((Cat(Star(Dot), Cat(Char('/'), Empty)), close))
  {
    ParseSlash(close);
    assert ".*/" + close == ".*" + ("/" + close);
    ParseAnyPath("/" + close);
  }

  lemma {:induction false} ParseAnyDirs(rest: string)
    requires rest != "" && !IsQuantifier(rest[0])
    ensures ParsePiece("(?:.*/)?" + rest) == Some((TokenRegex(AnyDirs), rest))
  {
    var s := "(?:.*/)?" + rest;
    var close := ")?" + rest;
    assert s[3..] == ".*/" + close;
    ParseDirsInside(close);
    assert close[1..] == "?" + rest && close[1..][1..] == rest;
    assert ParseAtom(s) == Some((Cat(Star(Dot), Cat(Char('/'), Empty)), "?" + rest));
  }

  lemma {:induction false} ParseBody(p: string)
    ensures ParseSequence(Body(p) + "$") == Some((Chain(Tokens(p)), ""))
    decreases |p|
  {
    if p == "" {
      assert Body(p) + "$" == "$";
      assert ParseAtom("$") == Some((End, ""));
      assert ParsePiece("$") == Some((End, ""));
    } else {
      var n := if p[0] != '*' || |p| == 1 || p[1] != '*' then 1 else if |p| == 2 || p[2] != '/' then 2 else 3;
      BodyStart(p);
      FirstPiece(p, n);
      ParseBody(p[n..]);
    }
  }

  /** The first piece of a translation is that of the first token, which takes `n` characters. */
  lemma {:induction false} FirstPiece(p: string, n: nat)
    requires p != ""
    requires n == if p[0] != '*' || |p| == 1 || p[1] != '*' then 1 else if |p| == 2 || p[2] != '/' then 2 else 3
    ensures Tokens(p) != [] && Tokens(p)[1..] == Tokens(p[n..])
    ensures ParsePiece(Body(p) + "$") == Some((TokenRegex(Tokens(p)[0]), Body(p[n..]) + "$"))
  {
    var rest := Body(p[n..]) + "$";
    BodyStart(p[n..]);
    if p[0] != '*' {
      ParseLiteral(p[0], rest);
      assert Body(p) + "$" == EscapeChar(p[0]) + rest;
    } else if n == 1 {
      ParseSegment(rest);
      assert Body(p) + "$" == "[^/]*" + rest;
    } else if n == 2 {
      ParseAnyPath(rest);
      assert Body(p) + "$" == ".*" + rest;
    } else {
      ParseAnyDirs(rest);
      assert Body(p) + "$" == "(?:.*/)?" + rest;
    }
  }

  lemma {:induction false} ParseTranslation(p: string)
    ensures Parse("^" + Body(p) + "$") == Some(Cat(Start, Chain(Tokens(p))))
  {
    var rest := Body(p) + "$";
    var s := "^" + Body(p) + "$";
    assert s[1..] == rest;
    BodyStart(p);
    ParseBody(p);
    assert ParseAtom(s) == Some((Start, rest));
    assert ParsePiece(s) == Some((Start, rest));
  }

  /// The regular expression of a token matches exactly the spans the token covers.

  lemma {:induction false} StarOfNotChar(c: char, t: string, i: nat, j: nat)
    requires i <= j <= |t|
    ensures MatchAt(Star(NotChar(c)), t, i, j) <==> c !in t[i..j]
    decreases j - i
  {
    if i < j {
      StarOfNotChar(c, t, i + 1, j);
      assert t[i..j] == [t[i]] + t[i + 1..j];
      if t[i] != c && c !in t[i + 1..j] {
        assert MatchAt(NotChar(c), t, i, i + 1) && Cuts(i, i + 1, j);
      }
    }
  }

  lemma {:induction false} StarOfDot(t: string, i: nat, j: nat)
    requires i <= j <= |t|
    ensures MatchAt(Star(Dot), t, i, j) <==> '\n' !in t[i..j]
    decreases j - i
  {
    if i < j {
      StarOfDot(t, i + 1, j);
      assert t[i..j] == [t[i]] + t[i + 1..j];
      if t[i] != '\n' && '\n' !in t[i + 1..j] {
        assert MatchAt(Dot, t, i, i + 1) && Cuts(i, i + 1, j);
      }
    }
  }

  lemma {:induction false} DirsRegex(t: string, i: nat, j: nat)
    requires i <= j <= |t|
    ensures MatchAt(TokenRegex(AnyDirs), t, i, j) <==> Covers(AnyDirs, t[i..j], true)
  {
    var slash := Cat(Char('/'), Empty);
    if i < j {
      StarOfDot(t, i, j - 1);
      assert t[i..j] == t[i..j - 1] + [t[j - 1]];
      assert MatchAt(slash, t, j - 1, j) <==> t[j - 1] == '/' by {
        if t[j - 1] == '/' { assert MatchAt(Char('/'), t, j - 1, j) && MatchAt(Empty, t, j, j) && Cuts(j - 1, j, j); }
      }
      if MatchAt(Cat(Star(Dot), slash), t, i, j) {
        var m: nat :| i <= m <= j && Cuts(i, m, j) && MatchAt(Star(Dot), t, i, m) && MatchAt(slash, t, m, j);
        var n: nat :| m <= n <= j && Cuts(m, n, j) && MatchAt(Char('/'), t, m, n) && MatchAt(Empty, t, n, j);
        assert m == j - 1;
      }
      if Covers(AnyDirs, t[i..j], true) {
        assert MatchAt(Star(Dot), t, i, j - 1) && Cuts(i, j - 1, j);
        assert MatchAt(Cat(Star(Dot), slash), t, i, j);
      }
    }
  }

  lemma {:induction false} TokenRegexCovers(tok: Token, t: string, i: nat, j: nat)
    requires i <= j <= |t|
    ensures MatchAt(TokenRegex(tok), t, i, j) <==> Covers(tok, t[i..j], true)
  {
    match tok
    case Literal(c) =>
      if j == i + 1 { assert t[i..j] == [t[i]]; }
    case AnySegment => StarOfNotChar('/', t, i, j);
    case AnyPath => StarOfDot(t, i, j);
    case AnyDirs => DirsRegex(t, i, j);
  }

  lemma {:induction false} ChainMatches(ts: seq<Token>, t: string, i: nat, j: nat)
    requires i <= j <= |t|
    ensures MatchAt(Chain(ts), t, i, j) <==> j == |t| && Matches(ts, t[i..], true)
    decreases |ts|
  {
    if ts == [] {
      if j == |t| == i { assert MatchAt(End, t, i, i) && MatchAt(Empty, t, i, j) && Cuts(i, i, j); }
    } else {
      forall m: nat | i <= m <= j
        ensures MatchAt(TokenRegex(ts[0]), t, i, m) <==> Covers(ts[0], t[i..][..m - i], true)
        ensures MatchAt(Chain(ts[1..]), t, m, j) <==> j == |t| && Matches(ts[1..], t[i..][m - i..], true)
      {
        assert t[i..][..m - i] == t[i..m] && t[i..][m - i..] == t[m..];
        TokenRegexCovers(ts[0], t, i, m);
        ChainMatches(ts[1..], t, m, j);
      }
      assert Chain(ts) == Cat(TokenRegex(ts[0]), Chain(ts[1..]));
      if MatchAt(Cat(TokenRegex(ts[0]), Chain(ts[1..])), t, i, j) {
        var m: nat :| i <= m <= j && Cuts(i, m, j) && MatchAt(TokenRegex(ts[0]), t, i, m) && MatchAt(Chain(ts[1..]), t, m, j);
        assert Covers(ts[0], t[i..][..m - i], true);
      }
      if j == |t| && Matches(ts, t[i..], true) {
        var k :| 0 <= k <= |t[i..]| && Covers(ts[0], t[i..][..k], true) && Matches(ts[1..], t[i..][k..], true);
        assert MatchAt(TokenRegex(ts[0]), t, i, i + k) && MatchAt(Chain(ts[1..]), t, i + k, j) && Cuts(i, i + k, j);
      }
    }
  }

  /** Compilation preserves meaning: for every pattern and every text, the emitted string is a regular
      expression, and searching for it succeeds exactly when the glob matches the whole text. */
  lemma {:induction false} TranslationPreservesMeaning(p: string, path: string)
    ensures var r := Parse("^" + Body(p) + "$");
      r.Some? && (IsMatch(r.value, path) <==> Matches(Tokens(p), path, true))
  {
    ParseTranslation(p);
    var (chain, r) := (Chain(Tokens(p)), Cat(Start, Chain(Tokens(p))));
    assert path[0..] == path;
    ChainMatches(Tokens(p), path, 0, |path|);
    if Matches(Tokens(p), path, true) {
      assert MatchAt(Start, path, 0, 0) && MatchAt(chain, path, 0, |path|) && Cuts(0, 0, |path|);
      assert MatchAt(r, path, 0, |path|);
    }
    if IsMatch(r, path) {
      var i: nat, j: nat :| i <= j <= |path| && MatchAt(r, path, i, j);
      var m: nat :| i <= m <= j && Cuts(i, m, j) && MatchAt(Start, path, i, m) && MatchAt(chain, path, m, j);
      ChainMatches(Tokens(p), path, 0, j);
    }
  }

  /** The matcher: translate, compile, search; a string that did not compile would match nothing. */
  method GlobMatch(pattern: seq<Byte>, path: string) returns (matched: bool)
    ensures matched <==> Matches(Tokens(Latin1(pattern)), path, true)
  {
    var out := Translate(pattern);
    TranslationPreservesMeaning(Latin1(pattern), path);
    match Parse(out)
    case Some(r) => matched := IsMatch(r, path);
    case None => matched := false;
  }
}
