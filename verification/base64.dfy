/** The hand-written base64 encoder and the decoding of section 4 of RFC 4648 that inverts it. */
module Base64 {
  import opened Bytes
  import opened Wrappers

  type Sextet = n: int | 0 <= n < 64

  const UPPER: string := "ABCDEFGHIJKLMNOPQRSTUVWXYZ"
  const LOWER: string := "abcdefghijklmnopqrstuvwxyz"
  const DIGITS: string := "0123456789"
  const ALPHABET: string := UPPER + LOWER + DIGITS + "+/"

  /// The encoder.

  function Group(a: Byte, b: Byte, c: Byte): nat {
    (a as int) * 0x1_0000 + (b as int) * 0x100 + c as int
  }

  /** The four six-bit pieces of a 24-bit group, from the top. */
  function Sextets(n: nat): seq<Sextet> {
    [n / 0x4_0000 % 64, n / 0x1000 % 64, n / 0x40 % 64, n % 64]
  }

  function EncodeGroup(a: Byte, b: Byte, c: Byte): (r: string)
    ensures |r| == 4
  {
    var d := Sextets(Group(a, b, c));
    [ALPHABET[d[0]], ALPHABET[d[1]], ALPHABET[d[2]], ALPHABET[d[3]]]
  }

  /** Four characters for every three bytes begun. */
  function Encode(input: seq<Byte>): (r: string)
    ensures |r| == 4 * ((|input| + 2) / 3)
  {
    if input == [] then ""
    else if |input| == 1 then EncodeGroup(input[0], 0, 0)[..2] + "=="
    else if |input| == 2 then EncodeGroup(input[0], input[1], 0)[..3] + "="
    else
      LengthStep(|input| - 3);
      EncodeGroup(input[0], input[1], input[2]) + Encode(input[3..])
  }

  lemma {:induction false} LengthStep(n: nat)
    ensures (n + 3 + 2) / 3 == (n + 2) / 3 + 1
  {
  }

  /** The digits of one full group, pushed one after the other. */
  method PushGroup(out: string, a: Byte, b: Byte, c: Byte) returns (r: string)
    ensures r == out + EncodeGroup(a, b, c)
  {
    var d := Sextets(Group(a, b, c));
    ghost var group := EncodeGroup(a, b, c);
    r := out;
    for k := 0 to 4
      invariant r == out + group[..k]
    {
      assert group[..k + 1] == group[..k] + [ALPHABET[d[k]]];
      r := r + [ALPHABET[d[k]]];
    }
    assert group[..4] == group;
  }

  /** The last one or two bytes, padded. */
  method PushRemainder(out: string, rest: seq<Byte>) returns (r: string)
    requires 1 <= |rest| <= 2
    ensures r == out + Encode(rest)
  {
    var d := Sextets(Group(rest[0], if |rest| == 2 then rest[1] else 0, 0));
    r := out + [ALPHABET[d[0]]];
    r := r + [ALPHABET[d[1]]];
    r := r + [if |rest| == 2 then ALPHABET[d[2]] else '='];
    r := r + ['='];
    assert Encode(rest) == [ALPHABET[d[0]], ALPHABET[d[1]], if |rest| == 2 then ALPHABET[d[2]] else '=', '='];
  }

  method Base64Encode(input: seq<Byte>) returns (out: string)
    ensures out == Encode(input)
  {
    out := "";
    var i := 0;
    assert input[0..] == input;
    while i + 3 <= |input|
      invariant 0 <= i <= |input|
      invariant out + Encode(input[i..]) == Encode(input)
    {
      EncodeAt(input, i, out);
      out := PushGroup(out, input[i], input[i + 1], input[i + 2]);
      i := i + 3;
    }
    if |input| - i > 0 {
      out := PushRemainder(out, input[i..]);
    }
  }

  lemma {:induction false} EncodeAt(input: seq<Byte>, i: nat, out: string)
    requires i + 3 <= |input|
    ensures out + Encode(input[i..]) == out + EncodeGroup(input[i], input[i + 1], input[i + 2]) + Encode(input[i + 3..])
  {
    assert input[i..][3..] == input[i + 3..];
    var (group, rest) := (EncodeGroup(input[i], input[i + 1], input[i + 2]), Encode(input[i + 3..]));
    assert out + (group + rest) == out + group + rest;
  }

  /// The decoder.

  function ValueOf(c: char): Option<Sextet> {
    if 'A' <= c <= 'Z' then Some(c as int - 'A' as int)
    else if 'a' <= c <= 'z' then Some(c as int - 'a' as int + 26)
    else if '0' <= c <= '9' then Some(c as int - '0' as int + 52)
    else if c == '+' then Some(62)
    else if c == '/' then Some(63)
    else None
  }

  function Join(a: Sextet, b: Sextet, c: Sextet, d: Sextet): nat {
    (a as int) * 0x4_0000 + (b as int) * 0x1000 + (c as int) * 0x40 + d as int
  }

  /** The bytes of four digits; `pads` of the last are padding, whose bits must be zero (section 3.5). */
  function DecodeGroup(a: char, b: char, c: char, d: char, pads: nat): Option<seq<Byte>>
    requires pads <= 2
  {
    var (va, vb, vc, vd) := (ValueOf(a), ValueOf(b), if pads == 2 then Some(0) else ValueOf(c), if pads > 0 then Some(0) else ValueOf(d));
    if va.None? || vb.None? || vc.None? || vd.None? then None else
      var n := Join(va.value, vb.value, vc.value, vd.value);
      if pads == 2 then (if n % 0x1_0000 == 0 then Some([n / 0x1_0000]) else None)
      else if pads == 1 then (if n % 0x100 == 0 then Some([n / 0x1_0000, n / 0x100 % 0x100]) else None)
      else Some([n / 0x1_0000, n / 0x100 % 0x100, n % 0x100])
  }

  function Decode(s: string): Option<seq<Byte>> {
    if s == "" then Some([])
    else if |s| < 4 then None
    else if |s| == 4 && s[3] == '=' then DecodeGroup(s[0], s[1], s[2], s[3], if s[2] == '=' then 2 else 1)
    else
      var first := DecodeGroup(s[0], s[1], s[2], s[3], 0);
      var rest := Decode(s[4..]);
      if first.Some? && rest.Some? then Some(first.value + rest.value) else None
  }

  /// Digits.

  lemma {:induction false} UpperAt(n: nat)
    requires n < 26
    ensures UPPER[n] as int == 'A' as int + n
  {
  }

  lemma {:induction false} LowerAt(n: nat)
    requires n < 26
    ensures LOWER[n] as int == 'a' as int + n
  {
  }

  lemma {:induction false} DigitAt(n: nat)
    requires n < 10
    ensures DIGITS[n] as int == '0' as int + n
  {
  }

  lemma {:induction false} AlphabetAt(n: Sextet)
    ensures ALPHABET[n] as int ==
      if n < 26 then 'A' as int + n else if n < 52 then 'a' as int + n - 26
      else if n < 62 then '0' as int + n - 52 else if n == 62 then '+' as int else '/' as int
  {
    if n < 26 {
      UpperAt(n);
    } else if n < 52 {
      LowerAt(n - 26);
    } else if n < 62 {
      DigitAt(n - 52);
    }
  }

  lemma {:induction false} AlphabetValue(n: Sextet)
    ensures ValueOf(ALPHABET[n]) == Some(n) && ALPHABET[n] != '='
  {
    AlphabetAt(n);
  }

  lemma {:induction false} ValueAlphabet(c: char)
    ensures ValueOf(c).Some? ==> ALPHABET[ValueOf(c).value] == c
  {
    if ValueOf(c).Some? {
      AlphabetAt(ValueOf(c).value);
    }
  }

  /// Groups.

  lemma {:induction false} NestedDivision(n: nat)
    ensures n / 0x1000 == n / 0x40 / 0x40 && n / 0x4_0000 == n / 0x40 / 0x40 / 0x40
    ensures n / 0x1_0000 == n / 0x100 / 0x100
  {
    var q := n / 0x40;
    assert n == 0x40 * q + n % 0x40 && q == 0x40 * (q / 0x40) + q % 0x40;
    assert q / 0x40 == 0x40 * (q / 0x40 / 0x40) + q / 0x40 % 0x40;
  }

  lemma {:induction false} BytesOf(a: Byte, b: Byte, c: Byte)
    ensures var n := Group(a, b, c);
      n < 0x100_0000 && n / 0x1_0000 == a && n / 0x100 % 0x100 == b && n % 0x100 == c
  {
    var n := Group(a, b, c);
    NestedDivision(n);
    assert n / 0x100 == (a as int) * 0x100 + b as int;
  }

  lemma {:induction false} DigitsOf(a: Sextet, b: Sextet, c: Sextet, d: Sextet)
    ensures var n := Join(a, b, c, d);
      n < 0x100_0000 && n / 0x4_0000 % 64 == a && n / 0x1000 % 64 == b && n / 0x40 % 64 == c && n % 64 == d
  {
    var n := Join(a, b, c, d);
    NestedDivision(n);
    assert n / 0x40 == (a as int) * 0x1000 + (b as int) * 0x40 + c as int;
    assert n / 0x40 / 0x40 == (a as int) * 0x40 + b as int;
  }

  lemma {:induction false} SplitGroup(n: nat)
    requires n < 0x100_0000
    ensures Join(n / 0x4_0000 % 64, n / 0x1000 % 64, n / 0x40 % 64, n % 64) == n
  {
    NestedDivision(n);
    var (q, d) := (n / 0x40, n % 0x40);
    var (p, c) := (q / 0x40, q % 0x40);
    var (a, b) := (p / 0x40, p % 0x40);
    assert n == 0x40 * q + d && q == 0x40 * p + c && p == 0x40 * a + b;
    assert a % 64 == a;
  }

  lemma {:induction false} SplitJoin(n: nat)
    requires n < 0x100_0000
    ensures n / 0x1_0000 < 0x100 && Group(n / 0x1_0000, n / 0x100 % 0x100, n % 0x100) == n
  {
    NestedDivision(n);
  }

  /** Four digits of a 24-bit group decode to its four pieces, and those make up the group. */
  lemma {:induction false} DigitsDecode(n: nat)
    requires n < 0x100_0000
    ensures var d := Sextets(n);
      && Join(d[0], d[1], d[2], d[3]) == n
      && forall i :: 0 <= i < 4 ==> ValueOf(ALPHABET[d[i]]) == Some(d[i]) && ALPHABET[d[i]] != '='
  {
    SplitGroup(n);
    forall i | 0 <= i < 4 ensures ValueOf(ALPHABET[Sextets(n)[i]]) == Some(Sextets(n)[i]) && ALPHABET[Sextets(n)[i]] != '=' {
      AlphabetValue(Sextets(n)[i]);
    }
  }

  /** A group whose last bytes are zero has zero digits where the padding stands. */
  lemma {:induction false} PaddedDigitsAreZero(a: Byte, b: Byte)
    ensures Group(a, b, 0) % 64 == 0 && Group(a, 0, 0) / 0x40 % 64 == 0
  {
    assert Group(a, 0, 0) / 0x40 == (a as int) * 0x400;
  }

  lemma {:induction false} GroupDigits(a: Byte, b: Byte, c: Byte)
    ensures var (d, e) := (Sextets(Group(a, b, c)), EncodeGroup(a, b, c));
      && Join(d[0], d[1], d[2], d[3]) == Group(a, b, c)
      && forall i :: 0 <= i < 4 ==> ValueOf(e[i]) == Some(d[i]) && e[i] != '='
  {
    var d := Sextets(Group(a, b, c));
    BytesOf(a, b, c);
    DigitsDecode(Group(a, b, c));
    assert EncodeGroup(a, b, c) == [ALPHABET[d[0]], ALPHABET[d[1]], ALPHABET[d[2]], ALPHABET[d[3]]];
  }

  // Characters with known values that make up the group of three bytes.
  lemma {:induction false} DecodeDigits(e: string, va: Sextet, vb: Sextet, vc: Sextet, vd: Sextet, pads: nat,
                                        a: Byte, b: Byte, c: Byte)
    requires |e| == 4 && ValueOf(e[0]) == Some(va) && ValueOf(e[1]) == Some(vb)
    requires ValueOf(e[2]) == Some(vc) && ValueOf(e[3]) == Some(vd)
    requires Join(va, vb, vc, vd) == Group(a, b, c)
    requires pads <= 2 && (pads >= 1 ==> c == 0 && vd == 0) && (pads == 2 ==> b == 0 && vc == 0)
    ensures DecodeGroup(e[0], e[1], if pads == 2 then '=' else e[2], if pads > 0 then '=' else e[3], pads)
         == Some([a, b, c][..3 - pads])
  {
    BytesOf(a, b, c);
    assert [a, b, c][..3] == [a, b, c] && [a, b, c][..2] == [a, b] && [a, b, c][..1] == [a];
  }

  lemma {:induction false} FullGroupRoundTrip(a: Byte, b: Byte, c: Byte)
    ensures var e := EncodeGroup(a, b, c); DecodeGroup(e[0], e[1], e[2], e[3], 0) == Some([a, b, c])
  {
    var d := Sextets(Group(a, b, c));
    GroupDigits(a, b, c);
    DecodeFullDigits(EncodeGroup(a, b, c), d[0], d[1], d[2], d[3], a, b, c);
  }

  lemma {:induction false} DecodeFullDigits(e: string, va: Sextet, vb: Sextet, vc: Sextet, vd: Sextet,
                                            a: Byte, b: Byte, c: Byte)
    requires |e| == 4 && ValueOf(e[0]) == Some(va) && ValueOf(e[1]) == Some(vb)
    requires ValueOf(e[2]) == Some(vc) && ValueOf(e[3]) == Some(vd)
    requires Join(va, vb, vc, vd) == Group(a, b, c)
    ensures DecodeGroup(e[0], e[1], e[2], e[3], 0) == Some([a, b, c])
  {
    DecodeDigits(e, va, vb, vc, vd, 0, a, b, c);
    assert [a, b, c][..3] == [a, b, c];
  }

  lemma {:induction false} GroupCanonical(a: char, b: char, c: char, d: char, pads: nat)
    requires pads <= 2 && DecodeGroup(a, b, c, d, pads).Some?
    ensures var r := DecodeGroup(a, b, c, d, pads).value;
      && |r| == 3 - pads
      && (var e := EncodeGroup(r[0], if pads == 2 then 0 else r[1], if pads > 0 then 0 else r[2]);
          e[0] == a && e[1] == b && (pads < 2 ==> e[2] == c) && (pads == 0 ==> e[3] == d))
  {
    ValueAlphabet(a);
    ValueAlphabet(b);
    ValueAlphabet(c);
    ValueAlphabet(d);
    var (va, vb) := (ValueOf(a).value, ValueOf(b).value);
    var (vc, vd) := (if pads == 2 then 0 else ValueOf(c).value, if pads > 0 then 0 else ValueOf(d).value);
    DigitsOf(va, vb, vc, vd);
    SplitJoin(Join(va, vb, vc, vd));
    if pads == 2 { LowBytesAreZero(Join(va, vb, vc, vd)); }
  }

  lemma {:induction false} LowBytesAreZero(n: nat)
    requires n % 0x1_0000 == 0
    ensures n / 0x100 % 0x100 == 0 && n % 0x100 == 0
  {
    var q := n / 0x1_0000;
    assert n == 0x100 * (0x100 * q);
    assert n / 0x100 == 0x100 * q;
  }

  /// The theorems.

  /** What decoding does with a full group in front, and with a padded one alone. */
  lemma {:induction false} DecodeInFront(e: string, rest: string, bytes: seq<Byte>, restBytes: seq<Byte>)
    requires |e| == 4 && '=' !in e
    requires DecodeGroup(e[0], e[1], e[2], e[3], 0) == Some(bytes) && Decode(rest) == Some(restBytes)
    ensures Decode(e + rest) == Some(bytes + restBytes)
  {
    assert (e + rest)[4..] == rest;
    assert e[3] in e;
  }

  lemma {:induction false} DecodeAlone(e: string, pads: nat, bytes: seq<Byte>)
    requires |e| == 4 && 1 <= pads <= 2 && e[3] == '=' && (pads == 2 <==> e[2] == '=')
    requires DecodeGroup(e[0], e[1], e[2], e[3], pads) == Some(bytes)
    ensures Decode(e) == Some(bytes)
  {
  }

  lemma {:induction false} NoPadInGroup(a: Byte, b: Byte, c: Byte)
    ensures '=' !in EncodeGroup(a, b, c)
  {
    DigitsDecode(Group(a, b, c));
  }

  lemma {:induction false} ShortForm(input: seq<Byte>)
    requires 1 <= |input| <= 2
    ensures var s := Encode(input); |s| == 4 && s[0] != '=' && s[1] != '=' && (s[2] == '=' <==> |input| == 1) && s[3] == '='
  {
    var e := EncodeGroup(input[0], if |input| == 2 then input[1] else 0, 0);
    NoPadInGroup(input[0], if |input| == 2 then input[1] else 0, 0);
    assert e[0] in e && e[1] in e && e[2] in e;
  }

  lemma {:induction false} ShortRoundTrip(input: seq<Byte>)
    requires 1 <= |input| <= 2
    ensures Decode(Encode(input)) == Some(input)
  {
    var (a, b, pads) := (input[0], if |input| == 2 then input[1] else 0, 3 - |input|);
    var d := Sextets(Group(a, b, 0));
    ShortForm(input);
    GroupDigits(a, b, 0);
    PaddedDigitsAreZero(a, b);
    DecodeDigits(EncodeGroup(a, b, 0), d[0], d[1], d[2], d[3], pads, a, b, 0);
    assert [a, b, 0][..3 - pads] == input;
    DecodeAlone(Encode(input), pads, input);
  }

  lemma {:induction false} DecodeFullGroup(a: Byte, b: Byte, c: Byte, rest: string, restBytes: seq<Byte>)
    requires Decode(rest) == Some(restBytes)
    ensures Decode(EncodeGroup(a, b, c) + rest) == Some([a, b, c] + restBytes)
  {
    FullGroupRoundTrip(a, b, c);
    NoPadInGroup(a, b, c);
    DecodeInFront(EncodeGroup(a, b, c), rest, [a, b, c], restBytes);
  }

  /** Decoding inverts the encoder on every byte string. */
  lemma {:induction false} RoundTrip(input: seq<Byte>)
    ensures Decode(Encode(input)) == Some(input)
    decreases |input|
  {
    if 1 <= |input| <= 2 {
      ShortRoundTrip(input);
    } else if |input| >= 3 {
      RoundTrip(input[3..]);
      DecodeFullGroup(input[0], input[1], input[2], Encode(input[3..]), input[3..]);
      assert input == [input[0], input[1], input[2]] + input[3..];
    }
  }

  /** And the encoder inverts decoding: a string that decodes at all is the encoding of its bytes. */
  lemma {:induction false} DecodeIsCanonical(s: string)
    requires Decode(s).Some?
    ensures Encode(Decode(s).value) == s
    decreases |s|
  {
    if s != "" {
      if |s| == 4 && s[3] == '=' {
        GroupCanonical(s[0], s[1], s[2], s[3], if s[2] == '=' then 2 else 1);
        assert s == [s[0], s[1], s[2], s[3]];
      } else {
        GroupCanonical(s[0], s[1], s[2], s[3], 0);
        DecodeIsCanonical(s[4..]);
        var r := Decode(s).value;
        assert r[3..] == Decode(s[4..]).value;
        assert s == s[..4] + s[4..];
      }
    }
  }

  /** How many characters of padding an input of `n` bytes gets. */
  function Pads(n: nat): nat {
    if n % 3 == 0 then 0 else 3 - n % 3
  }

  /** Every '=' in `s`, and nothing else, stands in its last `pads` places. */
  predicate PaddedBy(s: string, pads: nat) {
    forall i :: 0 <= i < |s| ==> (s[i] == '=' <==> i >= |s| - pads)
  }

  lemma {:induction false} PaddedInFront(e: string, rest: string, pads: nat)
    requires '=' !in e && PaddedBy(rest, pads) && pads <= |rest|
    ensures PaddedBy(e + rest, pads)
  {
    forall i | 0 <= i < |e + rest| ensures (e + rest)[i] == '=' <==> i >= |e + rest| - pads {
      if i < |e| { assert e[i] in e; } else { assert (e + rest)[i] == rest[i - |e|]; }
    }
  }

  lemma {:induction false} FourPadded(s: string, pads: nat)
    requires |s| == 4 && 1 <= pads <= 2 && s[0] != '=' && s[1] != '=' && (s[2] == '=' <==> pads == 2) && s[3] == '='
    ensures PaddedBy(s, pads)
  {
  }

  lemma {:induction false} PadsStep(n: nat)
    ensures Pads(n + 3) == Pads(n) && Pads(n) <= 4 * ((n + 2) / 3)
  {
  }

  /** Padding stands only where the last group is short: two characters for one byte over, one for two. */
  lemma {:induction false} PaddingAtTheEnd(input: seq<Byte>)
    ensures PaddedBy(Encode(input), Pads(|input|))
    decreases |input|
  {
    if 1 <= |input| <= 2 {
      ShortForm(input);
      FourPadded(Encode(input), Pads(|input|));
    } else if |input| >= 3 {
      var (e, rest) := (EncodeGroup(input[0], input[1], input[2]), input[3..]);
      NoPadInGroup(input[0], input[1], input[2]);
      PaddingAtTheEnd(rest);
      PadsStep(|rest|);
      PaddedInFront(e, Encode(rest), Pads(|rest|));
    }
  }
}
