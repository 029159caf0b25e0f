/** The pieces of Python's `str` and `int` that `predict_emojis` relies on:
    `label.split("_")`, `int(...)` applied to the last piece, and
    `" ".join(...)` over the glyphs. Strings are sequences of Unicode scalar
    values, as Python's `str` is a sequence of code points. */
module PyStrings {
  import opened Wrappers

  /** `sep.join(parts)`: the parts in order, `sep` between neighbours. */
  function Join(parts: seq<string>, sep: string): string
  {
    if parts == [] then ""
    else if |parts| == 1 then parts[0]
    else parts[0] + sep + Join(parts[1..], sep)
  }

  /** `s.split(c)` for a one-character separator: the pieces between
      occurrences of `c`, always at least one and possibly empty. Joining the
      pieces back with `c` gives `s` again. */
  function Split(s: string, c: char): (r: seq<string>)
    ensures |r| >= 1
    ensures forall i :: 0 <= i < |r| ==> c !in r[i]
    ensures Join(r, [c]) == s
  {
    if s == [] then [""]
    else
      var rest := Split(s[1..], c);
      if s[0] == c then
        assert Join([""] + rest, [c]) == [c] + Join(rest, [c]);
        [""] + rest
      else
        var first := [s[0]] + rest[0];
        assert |rest| > 1 ==> Join([first] + rest[1..], [c]) == first + [c] + Join(rest[1..], [c]);
        assert |rest| > 1 ==> Join(rest, [c]) == rest[0] + [c] + Join(rest[1..], [c]);
        [first] + rest[1..]
  }

  /** Where the text after the last `c` of `s` begins: `0` when `s` holds
      no `c`, otherwise just past its last `c`. */
  function AfterLast(s: string, c: char): (k: nat)
    ensures k <= |s| && c !in s[k..]
    ensures k > 0 ==> s[k - 1] == c
  {
    if s == [] then 0
    else if s[|s| - 1] == c then |s|
    else
      var k := AfterLast(s[..|s| - 1], c);
      assert s[k..] == s[..|s| - 1][k..] + [s[|s| - 1]];
      k
  }

  /** The last piece of a split is the text after the last `c`. */
  lemma SplitLastPiece(s: string, c: char)
    ensures var pieces := Split(s, c);
            pieces[|pieces| - 1] == s[AfterLast(s, c)..]
  {
    var k := AfterLast(s, c);
    var tail := s[k..];
    if k == 0 {
      assert tail == s;
      SplitWithoutSeparator(s, c);
    } else {
      var prefix := s[..k - 1];
      assert s == prefix + [c] + tail;
      LastPieceAfter(prefix, c, tail);
    }
  }

  /** The last piece of a split is whatever follows the last `c`. */
  lemma {:induction false} LastPieceAfter(prefix: string, c: char, tail: string)
    requires c !in tail
    ensures var pieces := Split(prefix + [c] + tail, c);
            |pieces| >= 2 && pieces[|pieces| - 1] == tail
  {
    var s := prefix + [c] + tail;
    if prefix == [] {
      assert s == [c] + tail && s[1..] == tail;
      SplitWithoutSeparator(tail, c);
    } else {
      assert s[1..] == prefix[1..] + [c] + tail;
      LastPieceAfter(prefix[1..], c, tail);
    }
  }

  /** Splitting a piece free of `c`, followed by `c`, peels off that piece. */
  lemma {:induction false} SplitAfterPiece(p: string, c: char, t: string)
    requires c !in p
    ensures Split(p + [c] + t, c) == [p] + Split(t, c)
  {
    if p == [] {
      assert p + [c] + t == [c] + t;
      assert ([c] + t)[1..] == t;
    } else {
      assert (p + [c] + t)[1..] == p[1..] + [c] + t;
      SplitAfterPiece(p[1..], c, t);
      assert [p[0]] + p[1..] == p;
    }
  }

  /** A string without `c` splits into itself alone. */
  lemma {:induction false} SplitWithoutSeparator(p: string, c: char)
    requires c !in p
    ensures Split(p, c) == [p]
  {
    if p != [] {
      SplitWithoutSeparator(p[1..], c);
      assert [p[0]] + p[1..] == p;
    }
  }

  /** Joining pieces free of `c` with `c` and splitting on `c` gives the
      pieces back; this is how a reader of the reply recovers the glyphs. */
  lemma {:induction false} SplitJoin(parts: seq<string>, c: char)
    requires |parts| >= 1
    requires forall i :: 0 <= i < |parts| ==> c !in parts[i]
    ensures Split(Join(parts, [c]), c) == parts
  {
    if |parts| == 1 {
      SplitWithoutSeparator(parts[0], c);
    } else {
      SplitJoin(parts[1..], c);
      SplitAfterPiece(parts[0], c, Join(parts[1..], [c]));
      assert [parts[0]] + parts[1..] == parts;
    }
  }

  /** Joining non-empty parts: the result is empty exactly when there are no
      parts, starts with the first part's first character and ends with the
      last part's last character. */
  lemma {:induction false} JoinEdges(parts: seq<string>, sep: string)
    requires forall i :: 0 <= i < |parts| ==> parts[i] != []
    ensures var j := Join(parts, sep);
            && (j == [] <==> parts == [])
            && (parts != [] ==> j[0] == parts[0][0] && j[|j| - 1] == parts[|parts| - 1][|parts[|parts| - 1]| - 1])
  {
    if |parts| > 1 {
      JoinEdges(parts[1..], sep);
    }
  }

  /** The whitespace `int()` skips on either side of the number: ASCII space,
      tab, line feed, vertical tab, form feed and carriage return. */
  predicate IsSpace(ch: char) {
    ch == ' ' || ch == '\t' || ch == '\n' || ch == '\U{B}' || ch == '\U{C}' || ch == '\r'
  }

  predicate IsDigit(ch: char) {
    '0' <= ch <= '9'
  }

  predicate AllDigits(s: string) {
    forall i :: 0 <= i < |s| ==> IsDigit(s[i])
  }

  /** `s` without its leading whitespace. */
  function TrimLeft(s: string): (r: string)
    ensures |r| <= |s| && r == s[|s| - |r|..]
    ensures r == [] || !IsSpace(r[0])
    ensures forall i :: 0 <= i < |s| - |r| ==> IsSpace(s[i])
  {
    if s != [] && IsSpace(s[0]) then TrimLeft(s[1..]) else s
  }

  /** `s` without its trailing whitespace. */
  function TrimRight(s: string): (r: string)
    ensures |r| <= |s| && r == s[..|r|]
    ensures r == [] || !IsSpace(r[|r| - 1])
    ensures forall i :: |r| <= i < |s| ==> IsSpace(s[i])
  {
    if s != [] && IsSpace(s[|s| - 1]) then TrimRight(s[..|s| - 1]) else s
  }

  function Strip(s: string): string {
    TrimRight(TrimLeft(s))
  }

  /** The value of a run of decimal digits, most significant first. */
  function DigitsValue(d: string): nat
    requires AllDigits(d)
  {
    if d == [] then 0 else 10 * DigitsValue(d[..|d| - 1]) + (d[|d| - 1] as int - '0' as int)
  }

  function Digit(n: nat): (ch: char)
    requires n < 10
    ensures IsDigit(ch) && ch as int - '0' as int == n
  {
    ('0' as int + n) as char
  }

  /** `str(n)`: the shortest decimal spelling of `n` (no leading zero except
      for `0` itself); reading it back gives `n`. */
  function Decimal(n: nat): (r: string)
    ensures r != [] && AllDigits(r)
    ensures DigitsValue(r) == n
    ensures r[0] == '0' ==> r == "0"
  {
    if n < 10 then [Digit(n)]
    else
      var d := Decimal(n / 10);
      var r := d + [Digit(n % 10)];
      assert r[..|r| - 1] == d && r[0] == d[0];
      assert DigitsValue("0") == 0;
      r
  }

  /** `int(t)` in base 10: optional whitespace, an optional `+` or `-`, one
      or more digits (leading zeros allowed), optional whitespace. Anything
      else is Python's ValueError, here `None`: in particular a text with a
      character other than whitespace, a sign or a digit, or with no digit. */
  function ParseInt(t: string): (r: Option<int>)
    ensures r.Some? ==> exists i :: 0 <= i < |t| && IsDigit(t[i])
    ensures r.Some? ==> forall i :: 0 <= i < |t| ==> IsSpace(t[i]) || IsDigit(t[i]) || t[i] == '+' || t[i] == '-'
  {
    var u := Strip(t);
    if ParseSigned(u).Some? then
      ParseSignedShape(u);
      TrimLeftChars(t);
      TrimRightChars(TrimLeft(t));
      assert u[|u| - 1] in t;
      ParseSigned(u)
    else
      None
  }

  /** A stripped `int()` literal: an optional sign, then the digits. */
  function ParseSigned(u: string): Option<int>
  {
    if u != [] && u[0] == '-' then
      match ParseDigits(u[1..])
      case Some(v) => Some(0 - v)
      case None => None
    else if u != [] && u[0] == '+' then
      match ParseDigits(u[1..])
      case Some(v) => Some(v)
      case None => None
    else
      match ParseDigits(u)
      case Some(v) => Some(v)
      case None => None
  }

  /** One or more decimal digits. */
  function ParseDigits(d: string): Option<nat>
  {
    if d != [] && AllDigits(d) then Some(DigitsValue(d)) else None
  }

  /** Whitespace on either side of a text that neither starts nor ends with
      whitespace is exactly what `Strip` removes. */
  lemma {:induction false} StripSurrounded(lead: string, x: string, trail: string)
    requires forall i :: 0 <= i < |lead| ==> IsSpace(lead[i])
    requires forall i :: 0 <= i < |trail| ==> IsSpace(trail[i])
    requires x != [] && !IsSpace(x[0]) && !IsSpace(x[|x| - 1])
    ensures Strip(lead + x + trail) == x
  {
    TrimLeftSpaces(lead, x + trail);
    assert lead + x + trail == lead + (x + trail);
    TrimRightSpaces(x, trail);
  }

  lemma {:induction false} TrimLeftSpaces(lead: string, rest: string)
    requires forall i :: 0 <= i < |lead| ==> IsSpace(lead[i])
    requires rest != [] && !IsSpace(rest[0])
    ensures TrimLeft(lead + rest) == rest
  {
    if lead != [] {
      var s := lead + rest;
      assert s[0] == lead[0] && IsSpace(s[0]);
      assert s[1..] == lead[1..] + rest;
      TrimLeftSpaces(lead[1..], rest);
    }
  }

  lemma {:induction false} TrimRightSpaces(rest: string, trail: string)
    requires forall i :: 0 <= i < |trail| ==> IsSpace(trail[i])
    requires rest != [] && !IsSpace(rest[|rest| - 1])
    ensures TrimRight(rest + trail) == rest
  {
    if trail != [] {
      var s := rest + trail;
      var t := trail[..|trail| - 1];
      assert s[|s| - 1] == trail[|trail| - 1] && IsSpace(s[|s| - 1]);
      assert s[..|s| - 1] == rest + t;
      TrimRightSpaces(rest, t);
    }
  }

  /** `int()` reads back what `str()` writes, whatever whitespace surrounds it
      and with or without a sign. */
  lemma DecimalRoundTrip(n: nat, sign: string, lead: string, trail: string)
    requires sign == "" || sign == "+" || sign == "-"
    requires forall i :: 0 <= i < |lead| ==> IsSpace(lead[i])
    requires forall i :: 0 <= i < |trail| ==> IsSpace(trail[i])
    ensures ParseInt(lead + (sign + Decimal(n)) + trail) == Some(if sign == "-" then 0 - n else n)
  {
    SignedDecimal(n, sign);
    StripSurrounded(lead, sign + Decimal(n), trail);
  }

  /** A sign (or none) followed by `str(n)` is a clean `int()` literal. */
  lemma SignedDecimal(n: nat, sign: string)
    requires sign == "" || sign == "+" || sign == "-"
    ensures var x := sign + Decimal(n);
            && x != [] && !IsSpace(x[0]) && !IsSpace(x[|x| - 1])
            && ParseSigned(x) == Some(if sign == "-" then 0 - n else n)
  {
    var d := Decimal(n);
    var x := sign + d;
    if sign == "" {
      assert x == d;
      ParseDigitsOf(d);
    } else {
      assert x == [sign[0]] + d;
      ParseSignedOf(sign[0], d);
    }
    assert IsDigit(x[|x| - 1]) by {
      assert x[|x| - 1] == d[|d| - 1];
    }
  }

  lemma DecimalReadsBack(n: nat)
    ensures ParseInt(Decimal(n)) == Some(n)
  {
    var d := Decimal(n);
    assert IsDigit(d[0]) && IsDigit(d[|d| - 1]);
    StripClean(d);
    ParseDigitsOf(d);
  }

  lemma DigitsExclude(d: string, c: char)
    requires AllDigits(d) && !IsDigit(c)
    ensures c !in d
  {
  }

  /** A text that neither starts nor ends with whitespace is its own strip. */
  lemma StripClean(x: string)
    requires x != [] && !IsSpace(x[0]) && !IsSpace(x[|x| - 1])
    ensures Strip(x) == x
  {
  }

  lemma ParseDigitsOf(d: string)
    requires d != [] && AllDigits(d)
    ensures ParseSigned(d) == Some(DigitsValue(d))
  {
    assert IsDigit(d[0]);
  }

  lemma ParseSignedOf(sign: char, d: string)
    requires sign == '+' || sign == '-'
    requires d != [] && AllDigits(d)
    ensures ParseSigned([sign] + d) == Some(if sign == '-' then 0 - DigitsValue(d) else DigitsValue(d))
  {
    assert ([sign] + d)[1..] == d;
  }

  /** Every character `TrimLeft` drops is whitespace, and it adds none. */
  lemma {:induction false} TrimLeftChars(s: string)
    ensures forall ch :: ch in s ==> IsSpace(ch) || ch in TrimLeft(s)
    ensures forall ch :: ch in TrimLeft(s) ==> ch in s
  {
    if s != [] && IsSpace(s[0]) {
      TrimLeftChars(s[1..]);
      assert s == [s[0]] + s[1..];
    }
  }

  /** Every character `TrimRight` drops is whitespace, and it adds none. */
  lemma {:induction false} TrimRightChars(s: string)
    ensures forall ch :: ch in s ==> IsSpace(ch) || ch in TrimRight(s)
    ensures forall ch :: ch in TrimRight(s) ==> ch in s
  {
    if s != [] && IsSpace(s[|s| - 1]) {
      TrimRightChars(s[..|s| - 1]);
      assert s == s[..|s| - 1] + [s[|s| - 1]];
    }
  }

  /** What `ParseSigned` accepts holds only digits and signs, and ends in a digit. */
  lemma ParseSignedShape(u: string)
    requires ParseSigned(u).Some?
    ensures u != [] && IsDigit(u[|u| - 1])
    ensures forall ch :: ch in u ==> IsDigit(ch) || ch == '+' || ch == '-'
  {
    if u[0] == '+' || u[0] == '-' {
      var d := u[1..];
      assert u == [u[0]] + d;
      assert u[|u| - 1] == d[|d| - 1];
    }
  }
}
