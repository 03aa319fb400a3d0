/**
 * The pieces of java.lang the core relies on: Integer.parseInt and
 * Integer.toString on decimal text, String.split on a one-character
 * separator, and the "a, b, c" layout of List.toString.
 */
module Text {
  import opened Wrappers

  const IntMin: int := -0x8000_0000
  const IntMax: int := 0x7fff_ffff

  /** A Java `int` result: `x` wrapped to 32 bits two's complement. */
  function Wrap32(x: int): (r: int)
    ensures IntMin <= r <= IntMax
    ensures (r - x) % 0x1_0000_0000 == 0
    ensures IntMin <= x <= IntMax ==> r == x
  {
    (x - IntMin) % 0x1_0000_0000 + IntMin
  }

  predicate IsDigit(c: char) {
    '0' <= c <= '9'
  }

  predicate AllDigits(s: string) {
    forall k :: 0 <= k < |s| ==> IsDigit(s[k])
  }

  function DigitValue(c: char): (d: nat)
    requires IsDigit(c)
    ensures d < 10
  {
    c as int - '0' as int
  }

  function DigitChar(d: nat): (c: char)
    requires d < 10
    ensures IsDigit(c) && DigitValue(c) == d
  {
    ('0' as int + d) as char
  }

  /** The number a string of decimal digits denotes, most significant first. */
  function DigitsValue(s: string): nat
    requires AllDigits(s)
  {
    if s == [] then 0 else DigitsValue(s[..|s| - 1]) * 10 + DigitValue(s[|s| - 1])
  }

  /** Integer.toString for a non-negative value: shortest decimal text. */
  function NatToString(n: nat): (s: string)
    ensures s != [] && AllDigits(s)
    ensures |s| > 1 ==> s[0] != '0'
  {
    if n < 10 then [DigitChar(n)] else NatToString(n / 10) + [DigitChar(n % 10)]
  }

  /** Why Integer.parseInt throws NumberFormatException: the text it refused. */
  datatype ParseError = NotANumber(text: string)

  /**
   * Integer.parseInt(s) in radix 10: an optional sign, then at least one
   * decimal digit, and a value that fits in an `int`.
   */
  function ParseInt(s: string): (r: Result<int, ParseError>)
    ensures r.Ok? ==> IntMin <= r.value <= IntMax
    ensures r.Err? ==> r.error == NotANumber(s)
  {
    if s == [] then Err(NotANumber(s))
    else
      var negative := s[0] == '-';
      var body := if s[0] == '-' || s[0] == '+' then s[1..] else s;
      if body == [] || !AllDigits(body) then Err(NotANumber(s))
      else
        var v: int := if negative then 0 - (DigitsValue(body) as int) else DigitsValue(body);
        if v < IntMin || IntMax < v then Err(NotANumber(s)) else Ok(v)
  }

  lemma {:induction false} DigitsValueOfNatToString(n: nat)
    ensures DigitsValue(NatToString(n)) == n
  {
    var s := NatToString(n);
    if n < 10 {
      assert s[..|s| - 1] == [];
    } else {
      DigitsValueOfNatToString(n / 10);
      assert s[..|s| - 1] == NatToString(n / 10);
    }
  }

  /** Decimal digits hold no sign and no '-' separator. */
  lemma DigitsAreUnsigned(s: string)
    requires AllDigits(s)
    ensures '-' !in s && '+' !in s
  {
    assert forall k :: 0 <= k < |s| ==> s[k] != '-' && s[k] != '+';
  }

  /** Integer.parseInt of an unsigned decimal numeral: its value when that fits in an `int`, an error otherwise. */
  lemma ParseIntOfUnsigned(n: nat)
    ensures ParseInt(NatToString(n)) == if n <= IntMax then Ok(n) else Err(NotANumber(NatToString(n)))
  {
    var t := NatToString(n);
    DigitsValueOfNatToString(n);
    DigitsAreUnsigned(t);
    assert t[0] != '-' && t[0] != '+';
  }

  /** With a leading '+' the numeral reads the same. */
  lemma ParseIntOfPlus(n: nat)
    ensures ParseInt("+" + NatToString(n)) == if n <= IntMax then Ok(n) else Err(NotANumber("+" + NatToString(n)))
  {
    var t := NatToString(n);
    DigitsValueOfNatToString(n);
    assert ("+" + t)[1..] == t;
  }

  /** With a leading '-' the numeral reads as its negation, down to -2^31. */
  lemma ParseIntOfMinus(n: nat)
    ensures var v: int := 0 - n;
      ParseInt("-" + NatToString(n)) == if IntMin <= v then Ok(v) else Err(NotANumber("-" + NatToString(n)))
  {
    var t := NatToString(n);
    DigitsValueOfNatToString(n);
    assert ("-" + t)[1..] == t;
  }

  /** A character that is not a digit, other than a leading sign, makes Integer.parseInt throw. */
  lemma NonDigitRejected(s: string, k: nat)
    requires k < |s| && !IsDigit(s[k])
    requires k > 0 || (s[0] != '-' && s[0] != '+')
    ensures ParseInt(s) == Err(NotANumber(s))
  {
    if s[0] == '-' || s[0] == '+' {
      assert s[1..][k - 1] == s[k];
    }
  }

  /** Reading one more digit multiplies by ten and adds it. */
  lemma DigitsValueSnoc(s: string, c: char)
    requires AllDigits(s) && IsDigit(c)
    ensures AllDigits(s + [c]) && DigitsValue(s + [c]) == DigitsValue(s) * 10 + DigitValue(c)
  {
    assert (s + [c])[..|s|] == s;
  }

  /**
   * Integer.parseInt of any non-empty string of decimal digits, leading
   * zeros included: its value when that fits in an `int`, an error otherwise.
   */
  lemma ParseIntOfDigits(s: string)
    requires s != [] && AllDigits(s)
    ensures ParseInt(s) == if DigitsValue(s) <= IntMax then Ok(DigitsValue(s)) else Err(NotANumber(s))
  {
    assert s[0] != '-' && s[0] != '+';
  }

  /** A leading zero does not change the value: "01" reads as 1. */
  lemma {:induction false} DigitsValueLeadingZero(s: string)
    requires AllDigits(s)
    ensures AllDigits("0" + s) && DigitsValue("0" + s) == DigitsValue(s)
  {
    if s == [] {
      assert "0" + s == "0";
    } else {
      var init := s[..|s| - 1];
      DigitsValueLeadingZero(init);
      assert "0" + s == ("0" + init) + [s[|s| - 1]];
      DigitsValueSnoc("0" + init, s[|s| - 1]);
    }
  }

  /** The pieces of `s` between occurrences of `sep`, empty pieces included. */
  function Segments(s: string, sep: char): (r: seq<string>)
    ensures |r| >= 1
    ensures forall k :: 0 <= k < |r| ==> sep !in r[k]
  {
    if s == [] then [""]
    else
      var rest := Segments(s[1..], sep);
      if s[0] == sep then [""] + rest else [[s[0]] + rest[0]] + rest[1..]
  }

  /** Text without the separator is a single segment. */
  lemma {:induction false} SegmentsOfPlain(s: string, sep: char)
    requires sep !in s
    ensures Segments(s, sep) == [s]
  {
    if s != [] {
      SegmentsOfPlain(s[1..], sep);
      assert [s[0]] + s[1..] == s;
    }
  }

  /** A separator after a plain piece `a` ends the first segment there. */
  lemma {:induction false} SegmentsAfterPlain(a: string, sep: char, b: string)
    requires sep !in a
    ensures Segments(a + [sep] + b, sep) == [a] + Segments(b, sep)
  {
    if a == [] {
      assert a + [sep] + b == [sep] + b;
      assert ([sep] + b)[1..] == b;
    } else {
      var s := a + [sep] + b;
      assert s[1..] == a[1..] + [sep] + b;
      SegmentsAfterPlain(a[1..], sep, b);
      assert [a[0]] + a[1..] == a;
    }
  }

  /** The pieces as Java's String.split keeps them: trailing empty strings removed. */
  function DropTrailingEmpty(parts: seq<string>): (r: seq<string>)
    ensures |r| <= |parts| && r == parts[..|r|]
    ensures r == [] || r[|r| - 1] != ""
    ensures forall k :: |r| <= k < |parts| ==> parts[k] == ""
  {
    if parts == [] || parts[|parts| - 1] != "" then parts
    else DropTrailingEmpty(parts[..|parts| - 1])
  }

  /**
   * s.split(String.valueOf(sep)) with limit 0: a string without the
   * separator is returned whole, otherwise the segments without the
   * trailing empty ones.
   */
  function Split(s: string, sep: char): (r: seq<string>)
    ensures sep !in s ==> r == [s]
    ensures forall k :: 0 <= k < |r| ==> sep !in r[k]
  {
    if sep !in s then [s] else DropTrailingEmpty(Segments(s, sep))
  }

  /** Three plain pieces joined by the separator split back into those pieces. */
  lemma SplitThree(a: string, b: string, c: string, sep: char)
    requires sep !in a && sep !in b && sep !in c && c != []
    ensures Split(a + [sep] + b + [sep] + c, sep) == [a, b, c]
  {
    var tail := b + [sep] + c;
    var s := a + [sep] + tail;
    assert a + [sep] + b + [sep] + c == s;
    assert s[|a|] == sep;
    SegmentsAfterPlain(a, sep, tail);
    SegmentsAfterPlain(b, sep, c);
    SegmentsOfPlain(c, sep);
    assert Segments(s, sep) == [a] + ([b] + [c]);
    assert [a] + ([b] + [c]) == [a, b, c];
  }

  /** Two plain pieces joined by the separator split back into those pieces. */
  lemma SplitTwo(a: string, b: string, sep: char)
    requires sep !in a && sep !in b && b != []
    ensures Split(a + [sep] + b, sep) == [a, b]
  {
    var s := a + [sep] + b;
    assert s[|a|] == sep;
    SegmentsAfterPlain(a, sep, b);
    SegmentsOfPlain(b, sep);
    assert Segments(s, sep) == [a] + [b];
    assert [a] + [b] == [a, b];
  }

  /** The pieces of `parts` with `sep` between neighbours and nowhere else. */
  function Join(parts: seq<string>, sep: string): string {
    if parts == [] then ""
    else if |parts| == 1 then parts[0]
    else parts[0] + sep + Join(parts[1..], sep)
  }

  /** Pieces without the separator, joined by it, segment back into those pieces. */
  lemma {:induction false} SegmentsOfJoin(ps: seq<string>, sep: char)
    requires ps != []
    requires forall k :: 0 <= k < |ps| ==> sep !in ps[k]
    ensures Segments(Join(ps, [sep]), sep) == ps
    decreases |ps|
  {
    if |ps| == 1 {
      SegmentsOfPlain(ps[0], sep);
    } else {
      var rest := ps[1..];
      SegmentsOfJoin(rest, sep);
      SegmentsAfterPlain(ps[0], sep, Join(rest, [sep]));
      assert [ps[0]] + rest == ps;
    }
  }

  /**
   * split is the inverse of joining: pieces without the separator, the
   * last one non-empty, joined by it, split back into exactly those pieces.
   */
  lemma SplitOfJoin(ps: seq<string>, sep: char)
    requires ps != [] && ps[|ps| - 1] != ""
    requires forall k :: 0 <= k < |ps| ==> sep !in ps[k]
    ensures Split(Join(ps, [sep]), sep) == ps
  {
    var s := Join(ps, [sep]);
    SegmentsOfJoin(ps, sep);
    if sep !in s {
      SegmentsOfPlain(s, sep);
    }
  }

  /** An empty last piece adds one separator to the join. */
  lemma {:induction false} JoinSnocEmpty(ps: seq<string>, sep: char)
    requires ps != []
    ensures Join(ps + [""], [sep]) == Join(ps, [sep]) + [sep]
    decreases |ps|
  {
    var qs := ps + [""];
    if |ps| == 1 {
      assert qs[1..] == [""];
    } else {
      assert qs[1..] == ps[1..] + [""];
      JoinSnocEmpty(ps[1..], sep);
    }
  }

  /** `k` empty last pieces add `k` separators to the join. */
  lemma {:induction false} JoinTrailingEmpties(ps: seq<string>, sep: char, k: nat)
    requires ps != []
    ensures Join(ps + seq(k, _ => ""), [sep]) == Join(ps, [sep]) + seq(k, _ => sep)
  {
    if k == 0 {
      assert ps + seq(k, _ => "") == ps;
    } else {
      var init := ps + seq(k - 1, _ => "");
      assert ps + seq(k, _ => "") == init + [""];
      JoinSnocEmpty(init, sep);
      JoinTrailingEmpties(ps, sep, k - 1);
      assert seq(k - 1, _ => sep) + [sep] == seq(k, _ => sep);
    }
  }

  /** Dropping trailing empty strings after a non-empty last piece leaves exactly the pieces. */
  lemma {:induction false} DropEmpties(ps: seq<string>, j: nat)
    requires ps != [] && ps[|ps| - 1] != ""
    ensures DropTrailingEmpty(ps + seq(j, _ => "")) == ps
  {
    if j == 0 {
      assert ps + seq(0, _ => "") == ps;
    } else {
      var t := ps + seq(j, _ => "");
      assert t[..|t| - 1] == ps + seq(j - 1, _ => "");
      DropEmpties(ps, j - 1);
    }
  }

  /**
   * String.split drops trailing empty strings: pieces without the separator,
   * the last one non-empty, joined by it and followed by any number `k` of
   * separators, split back into exactly those pieces.
   */
  lemma SplitDropsTrailing(ps: seq<string>, sep: char, k: nat)
    requires ps != [] && ps[|ps| - 1] != ""
    requires forall j :: 0 <= j < |ps| ==> sep !in ps[j]
    ensures Split(Join(ps, [sep]) + seq(k, _ => sep), sep) == ps
  {
    var qs := ps + seq(k, _ => "");
    assert forall j :: 0 <= j < |qs| ==> sep !in qs[j];
    JoinTrailingEmpties(ps, sep, k);
    SegmentsOfJoin(qs, sep);
    DropEmpties(ps, k);
    var s := Join(qs, [sep]);
    if sep !in s {
      SegmentsOfPlain(s, sep);
    }
  }

  /** AbstractCollection.toString of a List<String>: "[a, b, c]". */
  function ListToString(xs: seq<string>): (s: string)
    ensures |s| >= 2 && s[0] == '[' && s[|s| - 1] == ']'
    ensures xs == [] ==> s == "[]"
    ensures |xs| == 1 ==> s == "[" + xs[0] + "]"
    ensures |xs| >= 2 ==> s == "[" + xs[0] + ", " + Join(xs[1..], ", ") + "]"
  {
    "[" + Join(xs, ", ") + "]"
  }
}
