/**
  The text <-> binary converter of the portfolio page.

  A JavaScript string is a sequence of UTF-16 code units. Encoding writes
  every code unit in base 2, left-padded with '0' to at least eight digits,
  one token per code unit, separated by single spaces. Decoding splits on
  ' ', reads every piece with JavaScript's parseInt(piece, 2) and turns the
  number back into one code unit with String.fromCharCode.

  The imperative routines (ConvertTextToBinary, ConvertBinaryToText) keep the
  loops of the page script and are proved equal to the specification
  functions Encode and Decode, about which the round trip is proved.
 */
module TextBinary {

  /** One UTF-16 code unit, the element of a JavaScript string. */
  type CodeUnit = n: int | 0 <= n < 0x1_0000

  const Space: char := ' '

  // ---------------------------------------------------------------------
  // Binary digits and their value
  // ---------------------------------------------------------------------

  predicate IsBinaryDigit(c: char) {
    c == '0' || c == '1'
  }

  predicate AllBinaryDigits(s: seq<char>) {
    forall i :: 0 <= i < |s| ==> IsBinaryDigit(s[i])
  }

  function DigitValue(c: char): nat
    requires IsBinaryDigit(c)
  {
    if c == '1' then 1 else 0
  }

  function Digit(bit: nat): char
    requires bit < 2
  {
    if bit == 1 then '1' else '0'
  }

  /** Value of a string of binary digits, most significant digit first. */
  function ValueOf(s: seq<char>): nat
    requires AllBinaryDigits(s)
  {
    if s == [] then 0 else 2 * ValueOf(s[..|s| - 1]) + DigitValue(s[|s| - 1])
  }

  function Pow2(k: nat): nat {
    if k == 0 then 1 else 2 * Pow2(k - 1)
  }

  /** Appending one digit doubles the value and adds the digit. */
  lemma ValueOfSnoc(s: seq<char>, c: char)
    requires AllBinaryDigits(s) && IsBinaryDigit(c)
    ensures AllBinaryDigits(s + [c])
    ensures ValueOf(s + [c]) == 2 * ValueOf(s) + DigitValue(c)
  {
    assert (s + [c])[..|s|] == s;
  }

  /** A string of '0's has value zero. */
  lemma {:induction false} ValueOfZeros(z: seq<char>)
    requires forall i :: 0 <= i < |z| ==> z[i] == '0'
    ensures AllBinaryDigits(z) && ValueOf(z) == 0
  {
    if z != [] {
      ValueOfZeros(z[..|z| - 1]);
    }
  }

  /** Leading zeros do not change the value: this is why padding is harmless. */
  lemma {:induction false} ValueOfLeadingZeros(z: seq<char>, s: seq<char>)
    requires forall i :: 0 <= i < |z| ==> z[i] == '0'
    requires AllBinaryDigits(s)
    ensures AllBinaryDigits(z + s)
    ensures ValueOf(z + s) == ValueOf(s)
  {
    if s == [] {
      assert z + s == z;
      ValueOfZeros(z);
    } else {
      var init := s[..|s| - 1];
      ValueOfLeadingZeros(z, init);
      assert (z + s)[..|z + s| - 1] == z + init;
    }
  }

  // ---------------------------------------------------------------------
  // Encoding one code unit: toString(2) and padStart(8, '0')
  // ---------------------------------------------------------------------

  /**
    Number.prototype.toString(2) of a non-negative integer: the shortest
    base-2 numeral, "0" for zero and otherwise starting with '1'.
   */
  function ToBase2(n: nat): (r: seq<char>)
    ensures 1 <= |r| && AllBinaryDigits(r)
    ensures ValueOf(r) == n
    ensures r[0] == '1' || r == "0"
  {
    if n < 2 then [Digit(n)]
    else
      var r := ToBase2(n / 2) + [Digit(n % 2)];
      ValueOfSnoc(ToBase2(n / 2), Digit(n % 2));
      r
  }

  /** A numeral of at most k >= 1 digits is exactly a value below 2^k. */
  lemma {:induction false} ToBase2Length(n: nat, k: nat)
    requires 1 <= k
    ensures |ToBase2(n)| <= k <==> n < Pow2(k)
  {
    if n >= 2 {
      if k >= 2 {
        ToBase2Length(n / 2, k - 1);
      } else {
        assert Pow2(k) == 2;
      }
    } else {
      PowAtLeastTwo(k);
    }
  }

  lemma {:induction false} PowAtLeastTwo(k: nat)
    requires 1 <= k
    ensures Pow2(k) >= 2
  {
    if k > 1 {
      PowAtLeastTwo(k - 1);
    }
  }

  function Repeat(c: char, n: nat): (r: seq<char>)
    ensures |r| == n && forall i :: 0 <= i < n ==> r[i] == c
  {
    seq(n, _ => c)
  }

  /**
    String.prototype.padStart(width, fill) with a one-character fill: the
    string is lengthened on the left up to width and never shortened.
   */
  function PadStart(s: seq<char>, width: nat, fill: char): (r: seq<char>)
    ensures |r| == if |s| < width then width else |s|
  {
    if |s| < width then Repeat(fill, width - |s|) + s else s
  }

  /** Padding keeps the string as the tail and fills only the new places. */
  lemma PadStartContent(s: seq<char>, width: nat, fill: char)
    ensures var r := PadStart(s, width, fill);
      r[|r| - |s|..] == s && forall i :: 0 <= i < |r| - |s| ==> r[i] == fill
  {
    var r := PadStart(s, width, fill);
    if |s| < width {
      assert r == Repeat(fill, width - |s|) + s;
    }
  }

  /** Padding a numeral with '0' keeps its digits and its value. */
  lemma PaddedNumeral(digits: seq<char>, width: nat)
    requires AllBinaryDigits(digits)
    ensures AllBinaryDigits(PadStart(digits, width, '0'))
    ensures ValueOf(PadStart(digits, width, '0')) == ValueOf(digits)
  {
    if |digits| < width {
      ValueOfLeadingZeros(Repeat('0', width - |digits|), digits);
    }
  }

  /** The token that encodes one code unit. */
  function Token(c: CodeUnit): (t: seq<char>)
    ensures AllBinaryDigits(t)
    ensures |t| >= 8
    ensures |t| == 8 <==> c < 256
    ensures ValueOf(t) == c
    ensures c >= 256 ==> t[0] == '1'
  {
    PaddedNumeral(ToBase2(c), 8);
    ToBase2Length(c, 8);
    assert Pow2(8) == 256;
    PadStart(ToBase2(c), 8, '0')
  }

  // ---------------------------------------------------------------------
  // Joining and splitting on single spaces
  // ---------------------------------------------------------------------

  predicate NoSpace(s: seq<char>) {
    forall i :: 0 <= i < |s| ==> s[i] != Space
  }

  /** Pieces written one after another with one space between neighbours. */
  function JoinSpaced(pieces: seq<seq<char>>): seq<char> {
    if |pieces| == 0 then []
    else if |pieces| == 1 then pieces[0]
    else pieces[0] + [Space] + JoinSpaced(pieces[1..])
  }

  /** Number of spaces in s. */
  function SpaceCount(s: seq<char>): nat {
    if s == [] then 0 else (if s[0] == Space then 1 else 0) + SpaceCount(s[1..])
  }

  /**
    String.prototype.split(' '): the pieces between the spaces, one more
    piece than there are spaces; the empty string splits into [""].
   */
  function Split(s: seq<char>): (pieces: seq<seq<char>>)
    ensures |pieces| == SpaceCount(s) + 1
    ensures forall k :: 0 <= k < |pieces| ==> NoSpace(pieces[k])
  {
    if s == [] then [[]]
    else
      var rest := Split(s[1..]);
      if s[0] == Space then [[]] + rest
      else [[s[0]] + rest[0]] + rest[1..]
  }

  /** Joining the pieces of a split gives the string back. */
  lemma {:induction false} JoinSplit(s: seq<char>)
    ensures JoinSpaced(Split(s)) == s
  {
    if s != [] {
      var rest := Split(s[1..]);
      JoinSplit(s[1..]);
      var pieces := Split(s);
      if s[0] == Space {
        assert pieces == [[]] + rest;
        assert pieces[1..] == rest;
        assert JoinSpaced(pieces) == [] + [Space] + JoinSpaced(rest);
      } else {
        var first := [s[0]] + rest[0];
        assert pieces == [first] + rest[1..];
        if |rest| == 1 {
          assert JoinSpaced(pieces) == first;
        } else {
          assert pieces[1..] == rest[1..];
          assert JoinSpaced(pieces) == first + [Space] + JoinSpaced(rest[1..]);
          assert JoinSpaced(rest) == rest[0] + [Space] + JoinSpaced(rest[1..]);
        }
      }
      assert s == [s[0]] + s[1..];
    }
  }

  /** A piece without spaces splits into itself. */
  lemma {:induction false} SplitNoSpace(a: seq<char>)
    requires NoSpace(a)
    ensures Split(a) == [a]
  {
    if a != [] {
      SplitNoSpace(a[1..]);
      assert a[0] != Space;
      assert [a[0]] + a[1..] == a;
    }
  }

  /** A space-free piece followed by a space is the first piece of a split. */
  lemma {:induction false} SplitFirstPiece(a: seq<char>, b: seq<char>)
    requires NoSpace(a)
    ensures Split(a + [Space] + b) == [a] + Split(b)
  {
    var s := a + [Space] + b;
    if a == [] {
      assert s[1..] == b;
    } else {
      SplitFirstPiece(a[1..], b);
      assert s[1..] == a[1..] + [Space] + b;
      assert s[0] == a[0] != Space;
      assert [a[0]] + a[1..] == a;
    }
  }

  /** Splitting a join of space-free pieces gives the pieces back. */
  lemma {:induction false} SplitJoin(pieces: seq<seq<char>>)
    requires |pieces| >= 1
    requires forall k :: 0 <= k < |pieces| ==> NoSpace(pieces[k])
    ensures Split(JoinSpaced(pieces)) == pieces
  {
    if |pieces| == 1 {
      SplitNoSpace(pieces[0]);
    } else {
      SplitJoin(pieces[1..]);
      SplitFirstPiece(pieces[0], JoinSpaced(pieces[1..]));
    }
  }

  /** A join of non-empty pieces starts with the first piece and ends with the last. */
  lemma {:induction false} JoinSpacedEnds(pieces: seq<seq<char>>)
    requires |pieces| >= 1
    requires forall k :: 0 <= k < |pieces| ==> pieces[k] != []
    ensures var s := JoinSpaced(pieces);
      s != [] && s[0] == pieces[0][0] && s[|s| - 1] == pieces[|pieces| - 1][|pieces[|pieces| - 1]| - 1]
  {
    if |pieces| > 1 {
      JoinSpacedEnds(pieces[1..]);
    }
  }

  /** Appending one more piece adds a space and the piece. */
  lemma {:induction false} JoinSpacedSnoc(pieces: seq<seq<char>>, last: seq<char>)
    requires |pieces| >= 1
    ensures JoinSpaced(pieces + [last]) == JoinSpaced(pieces) + [Space] + last
  {
    if |pieces| > 1 {
      JoinSpacedSnoc(pieces[1..], last);
      assert (pieces + [last])[1..] == pieces[1..] + [last];
    }
  }

  /**
    A join of non-empty space-free pieces neither starts nor ends with a
    space and never holds two spaces in a row.
   */
  lemma {:induction false} JoinSpacedShape(pieces: seq<seq<char>>)
    requires |pieces| >= 1
    requires forall k :: 0 <= k < |pieces| ==> pieces[k] != [] && NoSpace(pieces[k])
    ensures var s := JoinSpaced(pieces);
      s != [] && s[0] != Space && s[|s| - 1] != Space &&
      forall i :: 0 <= i < |s| - 1 && s[i] == Space ==> s[i + 1] != Space
  {
    if |pieces| > 1 {
      JoinSpacedShape(pieces[1..]);
      var head, tail := pieces[0], JoinSpaced(pieces[1..]);
      var s := head + [Space] + tail;
      forall i | 0 <= i < |s| - 1 && s[i] == Space
        ensures s[i + 1] != Space
      {
        if i > |head| {
          assert s[i] == tail[i - |head| - 1] && s[i + 1] == tail[i - |head|];
        }
      }
    }
  }

  // ---------------------------------------------------------------------
  // Trimming and JavaScript's parseInt(_, 2) / String.fromCharCode
  // ---------------------------------------------------------------------

  /**
    The white space and line terminators of ECMAScript (WhiteSpace and
    LineTerminator) by code point: what trim removes and what parseInt skips.
   */
  predicate IsJsWhitespace(c: char) {
    var n := c as int;
    (9 <= n <= 13) || n == 32 || n == 0xA0 || n == 0x1680 || (0x2000 <= n <= 0x200A) ||
    n == 0x2028 || n == 0x2029 || n == 0x202F || n == 0x205F || n == 0x3000 || n == 0xFEFF
  }

  lemma DigitsAreNotWhitespace(c: char)
    requires IsBinaryDigit(c) || c == '-' || c == '+'
    ensures !IsJsWhitespace(c)
  {
  }

  function TrimStart(s: seq<char>): (r: seq<char>)
    ensures |r| <= |s|
    ensures r != [] ==> !IsJsWhitespace(r[0])
  {
    if s != [] && IsJsWhitespace(s[0]) then TrimStart(s[1..]) else s
  }

  function TrimEnd(s: seq<char>): (r: seq<char>)
    ensures |r| <= |s|
    ensures r != [] ==> !IsJsWhitespace(r[|r| - 1])
  {
    if s != [] && IsJsWhitespace(s[|s| - 1]) then TrimEnd(s[..|s| - 1]) else s
  }

  predicate AllWhitespace(s: seq<char>) {
    forall i :: 0 <= i < |s| ==> IsJsWhitespace(s[i])
  }

  /** TrimStart removes a run of white space from the front and nothing else. */
  lemma {:induction false} TrimStartRemovesWhitespace(s: seq<char>)
    ensures var r := TrimStart(s);
      r == s[|s| - |r|..] && AllWhitespace(s[..|s| - |r|])
  {
    if s != [] && IsJsWhitespace(s[0]) {
      TrimStartRemovesWhitespace(s[1..]);
      var r := TrimStart(s);
      var k := |s| - |r|;
      assert s[1..][..k - 1] == s[1..k];
      assert s[..k] == [s[0]] + s[1..k];
    }
  }

  /** TrimEnd removes a run of white space from the back and nothing else. */
  lemma {:induction false} TrimEndRemovesWhitespace(s: seq<char>)
    ensures var r := TrimEnd(s);
      r == s[..|r|] && AllWhitespace(s[|r|..])
  {
    if s != [] && IsJsWhitespace(s[|s| - 1]) {
      var init := s[..|s| - 1];
      TrimEndRemovesWhitespace(init);
      var r := TrimEnd(s);
      assert init[|r|..] + [s[|s| - 1]] == s[|r|..];
    }
  }

  /** String.prototype.trim. */
  function Trim(s: seq<char>): seq<char> {
    TrimEnd(TrimStart(s))
  }

  /**
    trim keeps one contiguous part of the string: white space alone is
    removed before and after it, and it neither starts nor ends with white
    space.
   */
  lemma TrimRemovesOnlyWhitespace(s: seq<char>)
    ensures var r, k := Trim(s), |s| - |TrimStart(s)|;
      k + |r| <= |s| && r == s[k..k + |r|] &&
      AllWhitespace(s[..k]) && AllWhitespace(s[k + |r|..]) &&
      (r != [] ==> !IsJsWhitespace(r[0]) && !IsJsWhitespace(r[|r| - 1]))
  {
    var t := TrimStart(s);
    TrimStartRemovesWhitespace(s);
    TrimEndRemovesWhitespace(t);
    var r, k := Trim(s), |s| - |t|;
    assert s[k + |r|..] == t[|r|..];
    if r != [] {
      assert r[0] == t[0];
    }
  }

  /** The result of parseInt: a NaN or an integer. */
  datatype NumberValue = NaN | Int(value: int)

  /** Length of the longest prefix made of binary digits. */
  function DigitPrefixLength(s: seq<char>): (n: nat)
    ensures n <= |s| && AllBinaryDigits(s[..n])
    ensures n < |s| ==> !IsBinaryDigit(s[n])
  {
    if s != [] && IsBinaryDigit(s[0]) then
      var n := 1 + DigitPrefixLength(s[1..]);
      assert s[..n] == [s[0]] + s[1..][..n - 1];
      n
    else 0
  }

  /**
    parseInt(s, 2): leading white space is skipped, one '+' or '-' is read,
    then the longest run of binary digits; no digit at all gives NaN.
   */
  function ParseBinary(s: seq<char>): NumberValue {
    ParseSigned(TrimStart(s))
  }

  /** parseInt after the white space: an optional sign, then the digits. */
  function ParseSigned(t: seq<char>): NumberValue {
    if t != [] && t[0] == '-' then Negate(ParseUnsigned(t[1..]))
    else if t != [] && t[0] == '+' then ParseUnsigned(t[1..])
    else ParseUnsigned(t)
  }

  /** The longest run of binary digits at the front, or NaN when there is none. */
  function ParseUnsigned(u: seq<char>): NumberValue {
    var n := DigitPrefixLength(u);
    if n == 0 then NaN else Int(ValueOf(u[..n]))
  }

  function Negate(v: NumberValue): NumberValue {
    match v
    case NaN => NaN
    case Int(n) => Int(-n)
  }

  /** String.fromCharCode of one number: NaN gives 0, integers are taken mod 2^16. */
  function FromCharCode(v: NumberValue): (c: CodeUnit)
    ensures v.NaN? ==> c == 0
    ensures v.Int? ==> (v.value - c) % 0x1_0000 == 0
  {
    match v
    case NaN => 0
    case Int(n) => n % 0x1_0000
  }

  /** String.fromCharCode(parseInt(piece, 2)). */
  function DecodePiece(piece: seq<char>): CodeUnit {
    FromCharCode(ParseBinary(piece))
  }

  /** A non-empty string of binary digits reads back as its value. */
  lemma ParseDigits(t: seq<char>)
    requires t != [] && AllBinaryDigits(t)
    ensures ParseBinary(t) == Int(ValueOf(t))
  {
    assert TrimStart(t) == t by {
      DigitsAreNotWhitespace(t[0]);
    }
    assert DigitPrefixLength(t) == |t|;
    assert t[..|t|] == t;
  }

  /** A token reads back as the code unit it encodes. */
  lemma TokenParses(c: CodeUnit)
    ensures DecodePiece(Token(c)) == c
  {
    ParseDigits(Token(c));
    DecodeInt(Token(c), c);
  }

  lemma DecodeInt(piece: seq<char>, c: CodeUnit)
    requires ParseBinary(piece) == Int(c)
    ensures DecodePiece(piece) == c
  {
  }

  /** The sign parseInt accepts: none, '-' or '+'. */
  predicate IsSign(sign: seq<char>) {
    sign == [] || sign == ['-'] || sign == ['+']
  }

  /**
    The layout parseInt reads: white space w, an optional sign, the run of
    binary digits d and a rest that does not extend the run. Without sign
    and digits, the rest must not start with white space or a sign, which
    would belong to w or to the sign.
   */
  predicate ParseLayout(w: seq<char>, sign: seq<char>, d: seq<char>, rest: seq<char>) {
    AllWhitespace(w) && IsSign(sign) && AllBinaryDigits(d) &&
    (rest != [] ==> !IsBinaryDigit(rest[0])) &&
    (sign == [] && d == [] && rest != [] ==> !IsJsWhitespace(rest[0]) && rest[0] != '-' && rest[0] != '+')
  }

  lemma {:induction false} TrimStartSkips(w: seq<char>, x: seq<char>)
    requires AllWhitespace(w)
    requires x != [] ==> !IsJsWhitespace(x[0])
    ensures TrimStart(w + x) == x
  {
    if w != [] {
      TrimStartSkips(w[1..], x);
      assert (w + x)[1..] == w[1..] + x;
    } else {
      assert w + x == x;
    }
  }

  lemma {:induction false} DigitPrefixOf(d: seq<char>, rest: seq<char>)
    requires AllBinaryDigits(d)
    requires rest != [] ==> !IsBinaryDigit(rest[0])
    ensures DigitPrefixLength(d + rest) == |d|
  {
    if d != [] {
      DigitPrefixOf(d[1..], rest);
      assert (d + rest)[1..] == d[1..] + rest;
    } else {
      assert d + rest == rest;
    }
  }

  lemma ConsParts(c: char, u: seq<char>)
    ensures ([c] + u)[0] == c && ([c] + u)[1..] == u
  {
  }

  lemma EmptyPrefix(u: seq<char>)
    ensures [] + u == u
  {
  }

  lemma ParseUnsignedLayout(d: seq<char>, rest: seq<char>)
    requires AllBinaryDigits(d)
    requires rest != [] ==> !IsBinaryDigit(rest[0])
    ensures ParseUnsigned(d + rest) == if d == [] then NaN else Int(ValueOf(d))
  {
    DigitPrefixOf(d, rest);
    assert (d + rest)[..|d|] == d;
  }

  lemma ParseSignedLayout(sign: seq<char>, d: seq<char>, rest: seq<char>)
    requires IsSign(sign) && AllBinaryDigits(d)
    requires rest != [] ==> !IsBinaryDigit(rest[0])
    requires sign == [] && d == [] && rest != [] ==> rest[0] != '-' && rest[0] != '+'
    ensures ParseSigned(sign + (d + rest)) ==
      if d == [] then NaN
      else if sign == ['-'] then Int(-(ValueOf(d) as int))
      else Int(ValueOf(d))
  {
    var u := d + rest;
    ParseUnsignedLayout(d, rest);
    if sign != [] {
      ConsParts(sign[0], u);
      assert sign + u == [sign[0]] + u;
    } else {
      EmptyPrefix(u);
    }
  }

  /**
    parseInt(_, 2) on any layout: the value of the digits, negated after a
    '-', and NaN exactly when there is no digit.
   */
  lemma ParseLayoutValue(w: seq<char>, sign: seq<char>, d: seq<char>, rest: seq<char>)
    requires ParseLayout(w, sign, d, rest)
    ensures ParseBinary(w + sign + d + rest) ==
      if d == [] then NaN
      else if sign == ['-'] then Int(-(ValueOf(d) as int))
      else Int(ValueOf(d))
  {
    var x := sign + (d + rest);
    assert w + sign + d + rest == w + x;
    assert TrimStart(w + x) == x by {
      if sign != [] {
        DigitsAreNotWhitespace(sign[0]);
      } else if d != [] {
        DigitsAreNotWhitespace(d[0]);
      }
      TrimStartSkips(w, x);
    }
    ParseSignedLayout(sign, d, rest);
  }

  /** Every string has a layout, so ParseLayoutValue determines parseInt everywhere. */
  lemma ParseLayoutExists(s: seq<char>) returns (w: seq<char>, sign: seq<char>, d: seq<char>, rest: seq<char>)
    ensures ParseLayout(w, sign, d, rest) && s == w + sign + d + rest
    ensures ParseBinary(s).NaN? <==> d == []
  {
    var t := TrimStart(s);
    var k := |s| - |t|;
    w := s[..k];
    assert AllWhitespace(w) && s == w + t by {
      TrimStartRemovesWhitespace(s);
    }
    var u;
    if t != [] && (t[0] == '-' || t[0] == '+') {
      sign, u := [t[0]], t[1..];
      ConsParts(t[0], u);
    } else {
      sign, u := [], t;
      EmptyPrefix(u);
    }
    assert t == sign + u;
    var n := DigitPrefixLength(u);
    d, rest := u[..n], u[n..];
    SplitAt(u, n);
    assert rest != [] ==> rest[0] == u[n];
    Regroup(w, sign, d, rest);
    ParseLayoutValue(w, sign, d, rest);
  }

  lemma SplitAt(u: seq<char>, n: nat)
    requires n <= |u|
    ensures u == u[..n] + u[n..]
  {
  }

  lemma Regroup(w: seq<char>, sign: seq<char>, d: seq<char>, rest: seq<char>)
    ensures w + (sign + (d + rest)) == w + sign + d + rest
  {
  }

  lemma DropEmptyEnds(sign: seq<char>, d: seq<char>)
    ensures [] + sign + d + [] == sign + d
  {
  }

  /** A run of binary digits decodes to its value taken modulo 2^16. */
  lemma DecodeDigits(d: seq<char>)
    requires d != [] && AllBinaryDigits(d)
    ensures DecodePiece(d) == ValueOf(d) % 0x1_0000
  {
    ParseDigits(d);
    FromCharCodeInt(ValueOf(d));
  }

  /** With a '-' before it, the run decodes to the negation of that modulo 2^16. */
  lemma DecodeNegatedDigits(d: seq<char>)
    requires d != [] && AllBinaryDigits(d)
    ensures DecodePiece(['-'] + d) == (0x1_0000 - DecodePiece(d)) % 0x1_0000
  {
    var v: int := ValueOf(d);
    DecodeDigits(d);
    assert ParseBinary(['-'] + d) == Int(-v) by {
      assert ParseLayout([], ['-'], d, []);
      ParseLayoutValue([], ['-'], d, []);
      DropEmptyEnds(['-'], d);
    }
    FromCharCodeInt(-v);
    NegMod(v);
  }

  lemma FromCharCodeInt(n: int)
    ensures FromCharCode(Int(n)) == n % 0x1_0000
  {
  }

  lemma NegMod(v: int)
    ensures (-v) % 0x1_0000 == (0x1_0000 - v % 0x1_0000) % 0x1_0000
  {
  }

  /** Pieces without a digit after the white space and sign decode to U+0000. */
  lemma DecodeWithoutDigits()
    ensures DecodePiece("") == 0
    ensures DecodePiece("2") == 0
    ensures DecodePiece("- 1") == 0
  {
    ParseLayoutValue("", "", "", "");
    DropEmptyEnds("", "");
    ParseLayoutValue("", "", "", "2");
    assert "" + "" + "" + "2" == "2";
    assert ParseLayout("", "-", "", " 1");
    ParseLayoutValue("", "-", "", " 1");
    assert "" + "-" + "" + " 1" == "- 1";
  }

  /** A lone "-1" wraps round to the last code unit. */
  lemma DecodeMinusOne()
    ensures DecodePiece("-1") == 0xFFFF
  {
    assert ValueOf("1") == 1;
    DecodeDigits("1");
    DecodeNegatedDigits("1");
    assert ['-'] + "1" == "-1";
  }

  /** White space, a '+' and trailing non-digits are read past or ignored. */
  lemma DecodeSignedWithRest()
    ensures DecodePiece("  +101x") == 5
  {
    assert ValueOf("101") == 5 by {
      assert ValueOf("10") == 2 by {
        assert "10"[..1] == "1";
      }
      assert "101"[..2] == "10";
    }
    assert ParseBinary("  +101x") == Int(5) by {
      assert ParseLayout("  ", "+", "101", "x");
      ParseLayoutValue("  ", "+", "101", "x");
      assert "  " + "+" + "101" + "x" == "  +101x";
    }
    FromCharCodeInt(5);
  }

  // ---------------------------------------------------------------------
  // The specification of the two conversions
  // ---------------------------------------------------------------------

  /** The tokens of a text, one per code unit and in order. */
  function Tokens(text: seq<CodeUnit>): (ts: seq<seq<char>>)
    ensures |ts| == |text|
  {
    seq(|text|, k requires 0 <= k < |text| => Token(text[k]))
  }

  lemma TokensSnoc(text: seq<CodeUnit>, i: nat)
    requires i < |text|
    ensures Tokens(text[..i + 1]) == Tokens(text[..i]) + [Token(text[i])]
  {
    var a, b := Tokens(text[..i + 1]), Tokens(text[..i]) + [Token(text[i])];
    forall k | 0 <= k <= i
      ensures a[k] == b[k]
    {
      if k < i {
        assert text[..i + 1][k] == text[..i][k];
      }
    }
  }

  /** What convertTextToBinary displays for a text. */
  function Encode(text: seq<CodeUnit>): seq<char> {
    JoinSpaced(Tokens(text))
  }

  /** What convertBinaryToText displays for a binary string. */
  function Decode(binary: seq<char>): (text: seq<CodeUnit>)
    ensures |text| == SpaceCount(binary) + 1
  {
    var pieces := Split(binary);
    seq(|pieces|, k requires 0 <= k < |pieces| => DecodePiece(pieces[k]))
  }

  /**
    convertTextToBinary: one token per character, appended with a trailing
    space, and the whole trimmed at the end.
   */
  method ConvertTextToBinary(text: seq<CodeUnit>) returns (binary: seq<char>)
    ensures binary == Encode(text)
  {
    binary := [];
    var i := 0;
    while i < |text|
      invariant 0 <= i <= |text|
      invariant binary == if i == 0 then [] else Encode(text[..i]) + [Space]
    {
      if i > 0 {
        TokensSnoc(text, i);
        JoinSpacedSnoc(Tokens(text[..i]), Token(text[i]));
      } else {
        assert Tokens(text[..1]) == [Token(text[0])];
      }
      binary := binary + Token(text[i]) + [Space];
      i := i + 1;
    }
    assert text[..i] == text;
    if text != [] {
      EncodeEnds(text);
      TrimDropsTrailingSpace(Encode(text));
    }
    binary := Trim(binary);
  }

  /** The encoding of a non-empty text starts and ends with a binary digit. */
  lemma EncodeEnds(text: seq<CodeUnit>)
    requires text != []
    ensures var e := Encode(text);
      e != [] && IsBinaryDigit(e[0]) && IsBinaryDigit(e[|e| - 1])
  {
    var ts := Tokens(text);
    forall k | 0 <= k < |ts|
      ensures ts[k] != [] && AllBinaryDigits(ts[k])
    {
      assert ts[k] == Token(text[k]);
    }
    JoinSpacedEnds(ts);
    var first, last := ts[0], ts[|ts| - 1];
    assert IsBinaryDigit(first[0]) && IsBinaryDigit(last[|last| - 1]);
  }

  /** Trimming a string of digits followed by one space removes just that space. */
  lemma TrimDropsTrailingSpace(e: seq<char>)
    requires e != [] && IsBinaryDigit(e[0]) && IsBinaryDigit(e[|e| - 1])
    ensures Trim(e + [Space]) == e
  {
    var b := e + [Space];
    DigitsAreNotWhitespace(e[0]);
    DigitsAreNotWhitespace(e[|e| - 1]);
    assert TrimStart(b) == b;
    assert b[..|b| - 1] == e;
    assert TrimEnd(e) == e;
  }

  /** convertBinaryToText: one character per space-separated piece, in order. */
  method ConvertBinaryToText(binary: seq<char>) returns (text: seq<CodeUnit>)
    ensures text == Decode(binary)
  {
    var pieces := Split(binary);
    text := [];
    for k := 0 to |pieces|
      invariant |text| == k
      invariant forall j :: 0 <= j < k ==> text[j] == DecodePiece(pieces[j])
    {
      text := text + [DecodePiece(pieces[k])];
    }
  }

  // ---------------------------------------------------------------------
  // Properties
  // ---------------------------------------------------------------------

  /**
    The encoding is one token per code unit, separated by single spaces,
    with no space at either end; each token is made of binary digits, is at
    least eight long (exactly eight for a code unit below 256) and has the
    code unit as its value.
   */
  lemma EncodeShape(text: seq<CodeUnit>)
    ensures Encode(text) == [] <==> text == []
    ensures text != [] ==> Split(Encode(text)) == Tokens(text)
    ensures text != [] ==> SpaceCount(Encode(text)) == |text| - 1
    ensures var e := Encode(text);
      text != [] ==> (e[0] != Space && e[|e| - 1] != Space &&
      forall i :: 0 <= i < |e| - 1 && e[i] == Space ==> e[i + 1] != Space)
    ensures forall k :: 0 <= k < |text| ==>
      AllBinaryDigits(Tokens(text)[k]) && |Tokens(text)[k]| >= 8 &&
      (|Tokens(text)[k]| == 8 <==> text[k] < 256) && ValueOf(Tokens(text)[k]) == text[k]
  {
    if text != [] {
      SplitJoin(Tokens(text));
      JoinSpacedShape(Tokens(text));
    } else {
      assert Tokens(text) == [];
    }
  }

  /** Decoding the encoding gives the text back, for every non-empty text. */
  lemma RoundTrip(text: seq<CodeUnit>)
    requires text != []
    ensures Decode(Encode(text)) == text
  {
    var ts := Tokens(text);
    SplitJoin(ts);
    forall k | 0 <= k < |text|
      ensures Decode(Encode(text))[k] == text[k]
    {
      TokenParses(text[k]);
    }
  }

  /**
    The empty text does not round-trip: it encodes to the empty string,
    which splits into one empty piece, parses to NaN and decodes to a
    single U+0000.
   */
  lemma EmptyTextDoesNotRoundTrip()
    ensures Encode([]) == []
    ensures Decode(Encode([])) == [0]
  {
    assert Tokens([]) == [];
    assert Split([]) == [[]];
  }

  /** Together: the round trip holds exactly for the non-empty texts. */
  lemma RoundTripIffNonEmpty(text: seq<CodeUnit>)
    ensures Decode(Encode(text)) == text <==> text != []
  {
    if text == [] {
      EmptyTextDoesNotRoundTrip();
    } else {
      RoundTrip(text);
    }
  }

  /**
    Encoding after decoding gives the binary string back whenever every
    piece is a token written the way the encoder writes it.
   */
  lemma EncodeDecode(binary: seq<char>)
    requires forall k :: 0 <= k < |Split(binary)| ==>
      exists c: CodeUnit :: Split(binary)[k] == Token(c)
    ensures Encode(Decode(binary)) == binary
  {
    var pieces := Split(binary);
    var text := Decode(binary);
    forall k | 0 <= k < |pieces|
      ensures Tokens(text)[k] == pieces[k]
    {
      var c: CodeUnit :| pieces[k] == Token(c);
      TokenParses(c);
    }
    assert Tokens(text) == pieces;
    JoinSplit(binary);
  }
}
