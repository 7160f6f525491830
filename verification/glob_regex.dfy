/** The part of regular-expression syntax that the glob translator emits, with a parser and a
    meaning: which spans of a text an expression matches. */
module GlobRegex {
  import opened Wrappers

  datatype Regex =
    | Empty
    | Start
    | End
    | Char(c: char)
    | Dot
    | NotChar(c: char)
    | Star(r: Regex)
    | Opt(r: Regex)
    | Cat(first: Regex, rest: Regex)

  /// Meaning.

  /** `m` cuts the span from `i` to `j` in two; the quantifiers below are stated over such cuts. */
  predicate Cuts(i: nat, m: nat, j: nat) {
    i <= m <= j
  }

  /** `r` matches the span of `t` from `i` up to `j`. The anchors look at the whole text, and a dot
      does not match a line feed. */
  predicate MatchAt(r: Regex, t: string, i: nat, j: nat)
    requires i <= j <= |t|
    decreases r, j - i
  {
    match r
    case Empty => i == j
    case Start => i == j == 0
    case End => i == j == |t|
    case Char(c) => j == i + 1 && t[i] == c
    case Dot => j == i + 1 && t[i] != '\n'
    case NotChar(c) => j == i + 1 && t[i] != c
    case Star(a) => i == j || exists m: nat {:trigger Cuts(i, m, j)} ::
                i < m <= j && Cuts(i, m, j) && MatchAt(a, t, i, m) && MatchAt(r, t, m, j)
    case Opt(a) => i == j || MatchAt(a, t, i, j)
    case Cat(a, b) => exists m: nat {:trigger Cuts(i, m, j)} ::
                i <= m <= j && Cuts(i, m, j) && MatchAt(a, t, i, m) && MatchAt(b, t, m, j)
  }

  /** An unanchored search: some span of the text matches. */
  predicate IsMatch(r: Regex, t: string) {
    exists i: nat, j: nat :: i <= j <= |t| && MatchAt(r, t, i, j)
  }

  /// Syntax.

  const META: string := "\\.+?()|[]{}^$"

  predicate IsQuantifier(c: char) {
    c in "*?+{"
  }

  /** One character, an escaped character, an anchor, a class `[^c]` or a group `(?:...)`. */
  function ParseAtom(s: string): (r: Option<(Regex, string)>)
    ensures r.Some? ==> |r.value.1| < |s|
    decreases |s|, 0
  {
    if s == "" then None
    else if s[0] == '^' then Some((Start, s[1..]))
    else if s[0] == '$' then Some((End, s[1..]))
    else if s[0] == '.' then Some((Dot, s[1..]))
    else if s[0] == '\\' then
      if |s| >= 2 && s[1] in META then Some((Char(s[1]), s[2..])) else None
    else if s[0] == '[' then
      if |s| >= 4 && s[1] == '^' && s[2] !in "[]\\^-&~" && s[3] == ']' then Some((NotChar(s[2]), s[4..])) else None
    else if s[0] == '(' then
      if |s| >= 3 && s[1] == '?' && s[2] == ':' then
        match ParseSequence(s[3..])
        case Some((r, rest)) => if rest != "" && rest[0] == ')' then Some((r, rest[1..])) else None
        case None => None
      else None
    else if s[0] in META || s[0] == '*' then None
    else Some((Char(s[0]), s[1..]))
  }

  /** An atom with at most one of the quantifiers `*` and `?`; stacked and lazy ones are not emitted. */
  function ParsePiece(s: string): (r: Option<(Regex, string)>)
    ensures r.Some? ==> |r.value.1| < |s|
    decreases |s|, 1
  {
    match ParseAtom(s)
    case None => None
    case Some((a, rest)) =>
      if rest == "" || !IsQuantifier(rest[0]) then Some((a, rest))
      else if |rest| > 1 && IsQuantifier(rest[1]) then None
      else if rest[0] == '*' then Some((Star(a), rest[1..]))
      else if rest[0] == '?' then Some((Opt(a), rest[1..]))
      else None
  }

  /** Pieces up to a closing parenthesis or the end; what follows them is left over. */
  function ParseSequence(s: string): (r: Option<(Regex, string)>)
    ensures r.Some? ==> |r.value.1| <= |s|
    decreases |s|, 2
  {
    if s == "" || s[0] == ')' then Some((Empty, s)) else
      match ParsePiece(s)
      case None => None
      case Some((piece, rest)) =>
        match ParseSequence(rest)
        case None => None
        case Some((more, left)) => Some((Cat(piece, more), left))
  }

  function Parse(s: string): Option<Regex> {
    match ParseSequence(s)
    case Some((r, rest)) => if rest == "" then Some(r) else None
    case None => None
  }
}
