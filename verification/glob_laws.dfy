/** Where the glob matcher agrees with the meaning its documentation gives, and what follows from it. */
module GlobLaws {
  import opened Bytes
  import opened Glob

  /// Line feeds: the emitted dot does not match one, while `**` is documented as any depth.

  lemma {:induction false} OneLineMakesNoDifference(ts: seq<Token>, path: string)
    requires '\n' !in path
    ensures Matches(ts, path, true) <==> Matches(ts, path, false)
    decreases |ts|
  {
    if ts != [] {
      forall k | 0 <= k <= |path|
        ensures Covers(ts[0], path[..k], true) <==> Covers(ts[0], path[..k], false)
        ensures Matches(ts[1..], path[k..], true) <==> Matches(ts[1..], path[k..], false)
      {
        OneLineMakesNoDifference(ts[1..], path[k..]);
      }
    }
  }

  lemma {:induction false} LoneAnyPath(path: string, oneLine: bool)
    ensures Matches(Tokens("**"), path, oneLine) <==> (oneLine ==> '\n' !in path)
  {
    assert Tokens("**") == [AnyPath] + Tokens("") == [AnyPath];
    assert path[..|path|] == path && path[|path|..] == "";
    if Covers(AnyPath, path, oneLine) {
      assert Matches([AnyPath][1..], path[|path|..], oneLine);
    }
  }

  /** The compiled matcher agrees with the documented one on every pattern exactly for the paths
      without a line feed. */
  lemma {:induction false} AgreesIffNoLineFeed(path: string)
    ensures (forall p: string :: Matches(Tokens(p), path, true) <==> Matches(Tokens(p), path, false))
       <==> '\n' !in path
  {
    if '\n' !in path {
      forall p: string ensures Matches(Tokens(p), path, true) <==> Matches(Tokens(p), path, false) {
        OneLineMakesNoDifference(Tokens(p), path);
      }
    } else {
      LoneAnyPath(path, true);
      LoneAnyPath(path, false);
    }
  }

  /// Non-ASCII patterns: the translator casts each UTF-8 byte of the pattern to a character.

  /** The UTF-8 bytes of a character (RFC 3629, section 3). */
  function Utf8(c: char): (r: seq<Byte>)
    ensures |r| >= 1
  {
    var n := c as int;
    if n < 0x80 then [n]
    else if n < 0x800 then [0xc0 + n / 0x40, 0x80 + n % 0x40]
    else if n < 0x1_0000 then [0xe0 + n / 0x1000, 0x80 + n / 0x40 % 0x40, 0x80 + n % 0x40]
    else [0xf0 + n / 0x4_0000, 0x80 + n / 0x1000 % 0x40, 0x80 + n / 0x40 % 0x40, 0x80 + n % 0x40]
  }

  function Utf8String(s: string): seq<Byte> {
    if s == "" then [] else Utf8(s[0]) + Utf8String(s[1..])
  }

  /** The pattern the translator works on, given the pattern the rule author wrote. */
  function Seen(p: string): string {
    Latin1(Utf8String(p))
  }

  predicate Ascii(c: char) {
    c as int < 0x80
  }

  lemma {:induction false} SeenStep(p: string)
    requires p != ""
    ensures Seen(p) == Latin1(Utf8(p[0])) + Seen(p[1..])
    ensures Ascii(p[0]) ==> Seen(p) == [p[0]] + Seen(p[1..])
    ensures !Ascii(p[0]) ==> |Latin1(Utf8(p[0]))| > 1 && forall c <- Latin1(Utf8(p[0])) :: !Ascii(c)
  {
    var (bytes, rest) := (Utf8(p[0]), Utf8String(p[1..]));
    assert Latin1(bytes + rest) == Latin1(bytes) + Latin1(rest);
    if Ascii(p[0]) {
      assert Latin1(bytes) == [p[0]];
    } else {
      assert forall b <- bytes :: b >= 0x80;
      assert forall i :: 0 <= i < |bytes| ==> Latin1(bytes)[i] as int == bytes[i];
    }
  }

  lemma {:induction false} AsciiSeenAsIs(p: string)
    requires forall c <- p :: Ascii(c)
    ensures Seen(p) == p
    decreases |p|
  {
    if p != "" {
      SeenStep(p);
      assert forall i :: 0 <= i < |p[1..]| ==> p[1..][i] == p[i + 1];
      AsciiSeenAsIs(p[1..]);
      assert p == [p[0]] + p[1..];
    }
  }

  /** The path that puts nothing where the wildcards are. */
  function Skeleton(ts: seq<Token>): string {
    if ts == [] then "" else (if ts[0].Literal? then [ts[0].c] else "") + Skeleton(ts[1..])
  }

  lemma {:induction false} SkeletonMatches(ts: seq<Token>, oneLine: bool)
    ensures Matches(ts, Skeleton(ts), oneLine)
    decreases |ts|
  {
    if ts != [] {
      SkeletonMatches(ts[1..], oneLine);
      var k := if ts[0].Literal? then 1 else 0;
      assert Skeleton(ts)[k..] == Skeleton(ts[1..]);
      assert Covers(ts[0], Skeleton(ts)[..k], oneLine);
    }
  }

  lemma {:induction false} SkeletonIsShortest(ts: seq<Token>, path: string, oneLine: bool)
    requires Matches(ts, path, oneLine)
    ensures |Skeleton(ts)| <= |path|
    decreases |ts|
  {
    if ts != [] {
      var k :| 0 <= k <= |path| && Covers(ts[0], path[..k], oneLine) && Matches(ts[1..], path[k..], oneLine);
      SkeletonIsShortest(ts[1..], path[k..], oneLine);
    }
  }

  lemma {:induction false} LiteralRun(run: string, rest: string)
    requires '*' !in run
    ensures |Skeleton(Tokens(run + rest))| == |run| + |Skeleton(Tokens(rest))|
    decreases |run|
  {
    if run == "" {
      assert run + rest == rest;
    } else {
      LiteralRun(run[1..], rest);
      assert (run + rest)[1..] == run[1..] + rest;
      assert Tokens(run + rest) == [Literal(run[0])] + Tokens(run[1..] + rest);
      assert Tokens(run + rest)[1..] == Tokens(run[1..] + rest);
    }
  }

  /** The first characters of a pattern decide the same branch before and after the cast. */
  lemma {:induction false} SeenLookahead(p: string)
    ensures (p == "") == (Seen(p) == "")
    ensures p != "" ==> (Ascii(p[0]) <==> Ascii(Seen(p)[0])) && (Ascii(p[0]) ==> Seen(p)[0] == p[0])
  {
    if p != "" {
      SeenStep(p);
      assert Seen(p)[0] in Latin1(Utf8(p[0]));
    }
  }

  /** How many characters the wildcard at the front of a pattern takes. */
  function StarLength(p: string): (n: nat)
    requires p != "" && p[0] == '*'
    ensures 1 <= n <= |p|
  {
    if |p| == 1 || p[1] != '*' then 1 else if |p| == 2 || p[2] != '/' then 2 else 3
  }

  lemma {:induction false} StarSkeleton(p: string)
    requires p != "" && p[0] == '*'
    ensures Skeleton(Tokens(p)) == Skeleton(Tokens(p[StarLength(p)..]))
  {
    assert Tokens(p)[1..] == Tokens(p[StarLength(p)..]);
  }

  lemma {:induction false} SeenOneMore(p: string, n: nat, seen: string)
    requires n < |p| && Ascii(p[n]) && seen == p[..n] + Seen(p[n..])
    ensures seen == p[..n + 1] + Seen(p[n + 1..])
  {
    SeenStep(p[n..]);
    assert p[n..][1..] == p[n + 1..];
    assert p[..n] + ([p[n]] + Seen(p[n + 1..])) == p[..n + 1] + Seen(p[n + 1..]);
  }

  lemma {:induction false} SeenSameStar(p: string)
    requires p != "" && p[0] == '*'
    ensures var n := StarLength(p);
      && Seen(p) == p[..n] + Seen(p[n..]) && StarLength(Seen(p)) == n && Seen(p)[n..] == Seen(p[n..])
  {
    var seen := Seen(p);
    assert p[0..] == p && seen == p[..0] + Seen(p[0..]);
    SeenOneMore(p, 0, seen);
    SeenLookahead(p[1..]);
    if |p| > 1 && p[1] == '*' {
      SeenOneMore(p, 1, seen);
      SeenLookahead(p[2..]);
      if |p| > 2 && p[2] == '/' {
        SeenOneMore(p, 2, seen);
      }
    }
  }

  /** Every non-ASCII character makes the seen pattern demand more characters than were written. */
  lemma {:induction false} SeenDemandsMore(p: string)
    ensures |Skeleton(Tokens(p))| <= |Skeleton(Tokens(Seen(p)))|
    ensures (exists i :: 0 <= i < |p| && !Ascii(p[i])) ==> |Skeleton(Tokens(p))| < |Skeleton(Tokens(Seen(p)))|
    decreases |p|
  {
    if p != "" {
      var n := if p[0] == '*' then StarLength(p) else 1;
      SeenDemandsMore(p[n..]);
      assert forall i :: n <= i < |p| ==> p[i] == p[n..][i - n];
      SeenStep(p);
      assert p == [p[0]] + p[1..];
      if p[0] == '*' {
        SeenSameStar(p);
        StarSkeleton(p);
        StarSkeleton(Seen(p));
      } else {
        LiteralRun([p[0]], p[1..]);
        LiteralRun(Latin1(Utf8(p[0])), Seen(p[1..]));
      }
    }
  }

  /** The matcher agrees with the meaning of the pattern as written, on every path, exactly for the
      patterns that are all ASCII (both read with `**` stopping at a line feed). */
  lemma {:induction false} AgreesIffAscii(p: string)
    ensures (forall path: string :: Matches(Tokens(Seen(p)), path, true) <==> Matches(Tokens(p), path, true))
       <==> (forall c <- p :: Ascii(c))
  {
    if forall c <- p :: Ascii(c) {
      AsciiSeenAsIs(p);
    } else {
      var path := Skeleton(Tokens(p));
      SkeletonMatches(Tokens(p), true);
      SeenDemandsMore(p);
      var c :| c in p && !Ascii(c);
      var i :| 0 <= i < |p| && p[i] == c;
      if Matches(Tokens(Seen(p)), path, true) {
        SkeletonIsShortest(Tokens(Seen(p)), path, true);
      }
      assert Matches(Tokens(p), path, true) && !Matches(Tokens(Seen(p)), path, true);
    }
  }

  /// Directory boundaries.

  /** A leading `**` and slash means: the rest matches the whole path, or a suffix that starts
      just after a slash. */
  lemma {:induction false} LeadingAnyDirs(p: string, path: string)
    requires '\n' !in path
    ensures Matches(Tokens("**/" + p), path, true) <==>
              || Matches(Tokens(p), path, true)
              || exists k :: 0 < k <= |path| && path[k - 1] == '/' && Matches(Tokens(p), path[k..], true)
  {
    assert ("**/" + p)[3..] == p;
    var ts := Tokens("**/" + p);
    assert ts == [AnyDirs] + Tokens(p) && ts[1..] == Tokens(p);
    forall k | 0 <= k <= |path|
      ensures Covers(AnyDirs, path[..k], true) <==> k == 0 || path[k - 1] == '/'
    {
      if k > 0 { assert path[..k][k - 1] == path[k - 1]; }
    }
    assert path[0..] == path;
    if Matches(Tokens(p), path, true) {
      assert Covers(AnyDirs, path[..0], true) && Matches(ts[1..], path[0..], true);
    }
    if exists k :: 0 < k <= |path| && path[k - 1] == '/' && Matches(Tokens(p), path[k..], true) {
      var k :| 0 < k <= |path| && path[k - 1] == '/' && Matches(Tokens(p), path[k..], true);
      assert Covers(AnyDirs, path[..k], true);
    }
  }

  function Slashes(s: string): nat {
    if s == "" then 0 else (if s[0] == '/' then 1 else 0) + Slashes(s[1..])
  }

  lemma {:induction false} SlashesSplit(s: string, k: nat)
    requires k <= |s|
    ensures Slashes(s) == Slashes(s[..k]) + Slashes(s[k..])
    decreases k
  {
    if k == 0 {
      assert s[0..] == s;
    } else {
      SlashesSplit(s[1..], k - 1);
      assert s[..k][1..] == s[1..][..k - 1] && s[k..] == s[1..][k - 1..];
    }
  }

  lemma {:induction false} NoSlashes(s: string)
    requires '/' !in s
    ensures Slashes(s) == 0
    decreases |s|
  {
    if s != "" { NoSlashes(s[1..]); }
  }

  lemma {:induction false} TokenKeepsDepth(t: Token, piece: string, rest: string, oneLine: bool)
    requires t != AnyPath && t != AnyDirs && Covers(t, piece, oneLine)
    ensures Slashes((if t.Literal? then [t.c] else "") + rest) == Slashes(piece) + Slashes(rest)
  {
    match t
    case Literal(c) =>
      assert piece == [c] && [c][1..] == "" && ([c] + rest)[1..] == rest;
    case AnySegment =>
      NoSlashes(piece);
      assert "" + rest == rest;
  }

  /** Without `**`, a glob never crosses a directory boundary: every path it matches has as many
      slashes as the pattern's literals. */
  lemma {:induction false} SingleStarKeepsDepth(ts: seq<Token>, path: string, oneLine: bool)
    requires AnyPath !in ts && AnyDirs !in ts && Matches(ts, path, oneLine)
    ensures Slashes(path) == Slashes(Skeleton(ts))
    decreases |ts|
  {
    if ts != [] {
      var k :| 0 <= k <= |path| && Covers(ts[0], path[..k], oneLine) && Matches(ts[1..], path[k..], oneLine);
      SlashesSplit(path, k);
      assert ts[0] in ts && forall t <- ts[1..] :: t in ts;
      SingleStarKeepsDepth(ts[1..], path[k..], oneLine);
      TokenKeepsDepth(ts[0], path[..k], Skeleton(ts[1..]), oneLine);
    }
  }
}
