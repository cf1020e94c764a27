/**
 * The JavaScript string builtins the decoder relies on, over `seq<char>`:
 * `String.prototype.split` with a one-character separator, `substring`,
 * `toLowerCase` (ASCII letters), `parseInt` with no radix argument, and the
 * decimal conversion of an integral Number to a string.
 */
module JsString {
  import opened Wrappers

  // ---------------------------------------------------------------------------
  // split

  /**
   * Splitting `s` at `c` when `piece` has been read since the last separator:
   * a separator closes the current piece, any other character extends it, and
   * the end of the text closes the last piece.
   */
  function SplitFrom(s: string, c: char, piece: string): (pieces: seq<string>)
    ensures |pieces| >= 1
  {
    if s == [] then [piece]
    else if s[0] == c then [piece] + SplitFrom(s[1..], c, "")
    else SplitFrom(s[1..], c, piece + [s[0]])
  }

  /**
   * `s.split(c)`: the maximal `c`-free pieces between the separators, in order.
   * As in JavaScript, the empty string splits into one empty piece.
   */
  function Split(s: string, c: char): (pieces: seq<string>)
    ensures |pieces| >= 1
  {
    SplitFrom(s, c, "")
  }

  /** `pieces.join(c)`, the inverse of `Split`. */
  function Join(pieces: seq<string>, c: char): string
    requires |pieces| >= 1
  {
    if |pieces| == 1 then pieces[0] else pieces[0] + [c] + Join(pieces[1..], c)
  }

  /** Text without the separator only extends the current piece. */
  lemma {:induction false} SplitFromWithoutSeparator(s: string, c: char, piece: string)
    requires c !in s
    ensures SplitFrom(s, c, piece) == [piece + s]
  {
    if s != [] {
      SplitFromWithoutSeparator(s[1..], c, piece + [s[0]]);
      assert piece + [s[0]] + s[1..] == piece + s;
    } else {
      assert piece + s == piece;
    }
  }

  /** A string without the separator is a single piece. */
  lemma SplitWithoutSeparator(s: string, c: char)
    requires c !in s
    ensures Split(s, c) == [s]
  {
    SplitFromWithoutSeparator(s, c, "");
    assert "" + s == s;
  }

  lemma {:induction false} SplitFromPiecesAreFree(s: string, c: char, piece: string)
    requires c !in piece
    ensures forall k :: 0 <= k < |SplitFrom(s, c, piece)| ==> c !in SplitFrom(s, c, piece)[k]
  {
    if s != [] {
      if s[0] == c {
        SplitFromPiecesAreFree(s[1..], c, "");
      } else {
        assert c !in piece + [s[0]];
        SplitFromPiecesAreFree(s[1..], c, piece + [s[0]]);
      }
    }
  }

  /** No piece of a split contains the separator. */
  lemma SplitPiecesAreFree(s: string, c: char)
    ensures forall k :: 0 <= k < |Split(s, c)| ==> c !in Split(s, c)[k]
  {
    SplitFromPiecesAreFree(s, c, "");
  }

  lemma {:induction false} SplitFromLength(s: string, c: char, piece: string)
    ensures |SplitFrom(s, c, piece)| == multiset(s)[c] + 1
  {
    if s != [] {
      assert s == [s[0]] + s[1..];
      assert multiset(s) == multiset([s[0]]) + multiset(s[1..]);
      SplitFromLength(s[1..], c, if s[0] == c then "" else piece + [s[0]]);
    }
  }

  /** A split has one more piece than the string has separators. */
  lemma SplitLength(s: string, c: char)
    ensures |Split(s, c)| == multiset(s)[c] + 1
  {
    SplitFromLength(s, c, "");
  }

  /** A join of two or more pieces starts with the first piece and a separator. */
  lemma JoinCons(piece: string, rest: seq<string>, c: char)
    requires |rest| >= 1
    ensures Join([piece] + rest, c) == piece + [c] + Join(rest, c)
  {
    assert ([piece] + rest)[1..] == rest;
  }

  lemma JoinSplitFromSeparator(s: string, c: char, piece: string)
    requires s != [] && s[0] == c
    requires Join(SplitFrom(s[1..], c, ""), c) == s[1..]
    ensures Join(SplitFrom(s, c, piece), c) == piece + s
  {
    var rest := SplitFrom(s[1..], c, "");
    JoinCons(piece, rest, c);
    assert piece + [c] + s[1..] == piece + s;
  }

  lemma {:induction false} JoinSplitFrom(s: string, c: char, piece: string)
    ensures Join(SplitFrom(s, c, piece), c) == piece + s
  {
    if s == [] {
      assert piece + s == piece;
    } else if s[0] == c {
      JoinSplitFrom(s[1..], c, "");
      JoinSplitFromSeparator(s, c, piece);
    } else {
      JoinSplitFrom(s[1..], c, piece + [s[0]]);
      assert piece + [s[0]] + s[1..] == piece + s;
    }
  }

  /** Joining the pieces of a split gives back the string. */
  lemma JoinSplit(s: string, c: char)
    ensures Join(Split(s, c), c) == s
  {
    JoinSplitFrom(s, c, "");
    assert "" + s == s;
  }

  lemma {:induction false} SplitFromConcat(a: string, b: string, c: char, piece: string)
    ensures SplitFrom(a + [c] + b, c, piece) == SplitFrom(a, c, piece) + SplitFrom(b, c, "")
  {
    if a == [] {
      assert (a + [c] + b)[1..] == b;
    } else {
      assert (a + [c] + b)[1..] == a[1..] + [c] + b;
      SplitFromConcat(a[1..], b, c, if a[0] == c then "" else piece + [a[0]]);
    }
  }

  /** Splitting at a separator splits each side independently. */
  lemma SplitConcat(a: string, b: string, c: char)
    ensures Split(a + [c] + b, c) == Split(a, c) + Split(b, c)
  {
    SplitFromConcat(a, b, c, "");
  }

  /** Joining separator-free pieces and splitting again gives back the pieces. */
  lemma {:induction false} SplitJoin(pieces: seq<string>, c: char)
    requires |pieces| >= 1
    requires forall k :: 0 <= k < |pieces| ==> c !in pieces[k]
    ensures Split(Join(pieces, c), c) == pieces
    decreases |pieces|
  {
    SplitWithoutSeparator(pieces[0], c);
    if |pieces| > 1 {
      SplitJoin(pieces[1..], c);
      SplitConcat(pieces[0], Join(pieces[1..], c), c);
      assert pieces == [pieces[0]] + pieces[1..];
    }
  }

  lemma {:induction false} SplitFromAppend(s: string, d: string, c: char, piece: string)
    ensures var ps := SplitFrom(s, c, piece);
            SplitFrom(s + d, c, piece) == ps[..|ps| - 1] + SplitFrom(d, c, ps[|ps| - 1])
  {
    if s == [] {
      assert s + d == d;
    } else {
      assert (s + d)[1..] == s[1..] + d;
      SplitFromAppend(s[1..], d, c, if s[0] == c then "" else piece + [s[0]]);
      if s[0] == c {
        var qs := SplitFrom(s[1..], c, "");
        var ps := [piece] + qs;
        assert ps[..|ps| - 1] == [piece] + qs[..|qs| - 1];
      }
    }
  }

  /** A separator-free start of the text can be read into the current piece first. */
  lemma {:induction false} SplitFromShift(q: string, d: string, c: char, piece: string)
    requires c !in q
    ensures SplitFrom(q + d, c, piece) == SplitFrom(d, c, piece + q)
  {
    if q == [] {
      assert q + d == d;
      assert piece + q == piece;
    } else {
      assert (q + d)[1..] == q[1..] + d;
      SplitFromShift(q[1..], d, c, piece + [q[0]]);
      assert piece + [q[0]] + q[1..] == piece + q;
    }
  }

  /**
   * Appending text only extends the last piece: every earlier piece, which was
   * followed by a separator, stays a piece.
   */
  lemma SplitAppend(s: string, d: string, c: char)
    ensures var ps := Split(s, c);
            Split(s + d, c) == ps[..|ps| - 1] + Split(ps[|ps| - 1] + d, c)
  {
    var ps := Split(s, c);
    var last := ps[|ps| - 1];
    SplitFromAppend(s, d, c, "");
    SplitPiecesAreFree(s, c);
    SplitFromShift(last, d, c, "");
    assert "" + last == last;
  }

  // ---------------------------------------------------------------------------
  // substring and prefixes

  function Min(a: nat, b: nat): nat { if a <= b then a else b }

  /** `s.substring(from, to)` for `from <= to`: both ends are clamped to the length. */
  function Substring(s: string, from: nat, to: nat): (r: string)
    requires from <= to
    ensures |r| <= to - from
    ensures to <= |s| ==> r == s[from..to]
    ensures from <= |s| < to ==> r == s[from..]
    ensures |s| <= from ==> r == ""
  {
    s[Min(from, |s|)..Min(to, |s|)]
  }

  /** `s.substring(from)`. */
  function SubstringFrom(s: string, from: nat): (r: string)
    ensures from <= |s| ==> r == s[from..] && |r| == |s| - from
    ensures |s| <= from ==> r == ""
  {
    s[Min(from, |s|)..]
  }

  /** `s` starts with `p`. */
  predicate HasPrefix(s: string, p: string)
  {
    |p| <= |s| && s[..|p|] == p
  }

  // ---------------------------------------------------------------------------
  // toLowerCase

  predicate IsUpper(ch: char) { 'A' <= ch <= 'Z' }

  function LowerChar(ch: char): (r: char)
    ensures !IsUpper(r)
    ensures IsUpper(ch) ==> r as int == ch as int + 32
    ensures !IsUpper(ch) ==> r == ch
  {
    if IsUpper(ch) then (ch as int + 32) as char else ch
  }

  /** `s.toLowerCase()` on the ASCII letters. */
  function ToLower(s: string): (r: string)
    ensures |r| == |s|
    ensures forall i :: 0 <= i < |s| ==> r[i] == LowerChar(s[i])
  {
    seq(|s|, i requires 0 <= i < |s| => LowerChar(s[i]))
  }

  lemma ToLowerIdempotent(s: string)
    ensures ToLower(ToLower(s)) == ToLower(s)
  {
  }

  // ---------------------------------------------------------------------------
  // parseInt

  /** The characters JavaScript's `parseInt` skips before the number. */
  predicate IsWhiteSpace(ch: char)
  {
    ch == ' ' || ch == '\t' || ch == '\n' || ch == '\r' || ch == '\U{B}' || ch == '\U{C}'
    || ch == '\U{A0}' || ch == '\U{FEFF}' || ch == '\U{1680}' || ('\U{2000}' <= ch <= '\U{200A}')
    || ch == '\U{2028}' || ch == '\U{2029}' || ch == '\U{202F}' || ch == '\U{205F}' || ch == '\U{3000}'
  }

  function TrimStart(s: string): (r: string)
    ensures |r| > 0 ==> !IsWhiteSpace(r[0])
    ensures |s| > 0 && !IsWhiteSpace(s[0]) ==> r == s
  {
    if |s| > 0 && IsWhiteSpace(s[0]) then TrimStart(s[1..]) else s
  }

  /** The value of `ch` as a digit in any radix up to 36, or 36 if it is none. */
  function DigitValue(ch: char): (v: nat)
    ensures v <= 36
  {
    if '0' <= ch <= '9' then ch as int - '0' as int
    else if 'a' <= ch <= 'z' then ch as int - 'a' as int + 10
    else if 'A' <= ch <= 'Z' then ch as int - 'A' as int + 10
    else 36
  }

  /** Every character of `s` is a digit of `radix`. */
  predicate AllDigits(s: string, radix: nat)
  {
    forall i :: 0 <= i < |s| ==> DigitValue(s[i]) < radix
  }

  /** The longest prefix of `s` made of digits of `radix`. */
  function LeadingDigits(s: string, radix: nat): (r: string)
    ensures |r| <= |s| && forall i :: 0 <= i < |r| ==> r[i] == s[i]
    ensures AllDigits(r, radix)
    ensures |r| < |s| ==> DigitValue(s[|r|]) >= radix
  {
    if |s| > 0 && DigitValue(s[0]) < radix then [s[0]] + LeadingDigits(s[1..], radix) else ""
  }

  /** The value of a digit string, most significant digit first. */
  function DigitsValue(ds: string, radix: nat): nat
  {
    if ds == [] then 0
    else DigitsValue(ds[..|ds| - 1], radix) * radix + DigitValue(ds[|ds| - 1])
  }

  /** The sign of a number: whether it is negative, and the text after the sign. */
  function SignOf(t: string): (bool, string)
  {
    if |t| > 0 && (t[0] == '-' || t[0] == '+') then (t[0] == '-', t[1..]) else (false, t)
  }

  /** Without a radix argument, a `0x` or `0X` prefix selects base 16, anything else base 10. */
  function RadixOf(u: string): (nat, string)
  {
    if |u| >= 2 && u[0] == '0' && (u[1] == 'x' || u[1] == 'X') then (16, u[2..]) else (10, u)
  }

  /**
   * `parseInt(s)` with no radix: leading white space, an optional sign, a `0x`
   * or `0X` prefix selecting base 16, then the longest run of digits. `None`
   * stands for `NaN`, the result when no digit follows.
   */
  function ParseInt(s: string): Option<int>
  {
    var sign := SignOf(TrimStart(s));
    var radix := RadixOf(sign.1);
    var digits := LeadingDigits(radix.1, radix.0);
    if digits == "" then None
    else
      var magnitude: int := DigitsValue(digits, radix.0);
      Some(if sign.0 then -magnitude else magnitude)
  }

  // ---------------------------------------------------------------------------
  // Number to string

  function DigitChar(d: nat): (ch: char)
    requires d < 10
    ensures DigitValue(ch) == d
  {
    ('0' as int + d) as char
  }

  /** Decimal digits of `n`, without leading zeros. */
  function NatToString(n: nat): (s: string)
    ensures |s| >= 1 && AllDigits(s, 10)
  {
    if n < 10 then [DigitChar(n)] else NatToString(n / 10) + [DigitChar(n % 10)]
  }

  /** `String(v)` for an integral Number `v`: a minus sign, then the decimal digits. */
  function IntToString(v: int): (s: string)
    ensures v >= 0 ==> AllDigits(s, 10) && |s| >= 1
    ensures v < 0 ==> |s| >= 2 && s[0] == '-' && AllDigits(s[1..], 10)
  {
    if v < 0 then "-" + NatToString(-v) else NatToString(v)
  }

  lemma {:induction false} DigitsValueNatToString(n: nat)
    ensures DigitsValue(NatToString(n), 10) == n
  {
    var s := NatToString(n);
    if n < 10 {
      assert s[..0] == "";
    } else {
      DigitsValueNatToString(n / 10);
      assert s[..|s| - 1] == NatToString(n / 10);
    }
  }

  lemma LeadingDigitsAll(s: string, radix: nat)
    requires AllDigits(s, radix)
    ensures LeadingDigits(s, radix) == s
  {
  }

  lemma TrimStartKeeps(s: string)
    requires |s| >= 1 && (s[0] == '-' || DigitValue(s[0]) < 10)
    ensures TrimStart(s) == s
  {
    assert !IsWhiteSpace(s[0]);
  }

  lemma ParseIntStages(s: string, negative: bool, digits: string)
    requires TrimStart(s) == s && SignOf(s) == (negative, digits)
    requires RadixOf(digits) == (10, digits) && LeadingDigits(digits, 10) == digits && digits != ""
    ensures var value: int := DigitsValue(digits, 10);
            ParseInt(s) == Some(if negative then -value else value)
  {
  }

  /** How `parseInt` sees a decimal digit string: no white space, no sign, base 10. */
  lemma DecimalDigitsStages(digits: string)
    requires |digits| >= 1 && AllDigits(digits, 10)
    ensures TrimStart(digits) == digits && SignOf(digits) == (false, digits)
    ensures RadixOf(digits) == (10, digits) && LeadingDigits(digits, 10) == digits
  {
    LeadingDigitsAll(digits, 10);
    assert |digits| >= 2 ==> DigitValue(digits[1]) < 10;
    TrimStartKeeps(digits);
    assert DigitValue(digits[0]) < 10;
  }

  /** The same string after a minus sign: no white space, a negative sign. */
  lemma NegativeDigitsStages(digits: string)
    requires |digits| >= 1
    ensures TrimStart("-" + digits) == "-" + digits && SignOf("-" + digits) == (true, digits)
  {
    TrimStartKeeps("-" + digits);
    assert ("-" + digits)[1..] == digits;
  }

  /** Decimal digits, with or without a minus sign, parse as their (negated) value. */
  lemma ParseIntDigits(digits: string)
    requires |digits| >= 1 && AllDigits(digits, 10)
    ensures ParseInt(digits) == Some(DigitsValue(digits, 10))
    ensures ParseInt("-" + digits) == Some(0 - DigitsValue(digits, 10))
  {
    DecimalDigitsStages(digits);
    NegativeDigitsStages(digits);
    ParseIntStages(digits, false, digits);
    ParseIntStages("-" + digits, true, digits);
  }

  /** `parseInt` reads back the decimal string of every integer. */
  lemma ParseIntToString(v: int)
    ensures ParseInt(IntToString(v)) == Some(v)
  {
    var m: nat := if v < 0 then -v else v;
    DigitsValueNatToString(m);
    ParseIntDigits(NatToString(m));
  }
}
