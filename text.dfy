/** String helpers the catalogue client relies on, modelled on the JavaScript
    built-ins it calls: `toLowerCase`, `includes`, `Number.prototype.toString`
    and `parseInt(s, 10) || 0`.  Characters outside ASCII are left alone. */
module Text {

  datatype Option<+T> = None | Some(value: T)

  // ---------------------------------------------------------------- case

  predicate IsUpper(c: char) {
    'A' <= c <= 'Z'
  }

  /** 'A'..'Z' become 'a'..'z'; every other character is kept. */
  function LowerChar(c: char): (r: char)
    ensures !IsUpper(r)
    ensures IsUpper(c) ==> r as int == c as int + 32
    ensures !IsUpper(c) ==> r == c
  {
    if IsUpper(c) then (c as int + 32) as char else c
  }

  /** ASCII `toLowerCase`: same length, each upper-case letter replaced by
      its lower-case partner (32 code points up), every other character kept. */
  function Lower(s: string): (r: string)
    ensures |r| == |s|
    ensures forall i :: 0 <= i < |r| ==> !IsUpper(r[i])
    ensures forall i :: 0 <= i < |s| && IsUpper(s[i]) ==> r[i] as int == s[i] as int + 32
    ensures forall i :: 0 <= i < |s| && !IsUpper(s[i]) ==> r[i] == s[i]
  {
    if s == [] then [] else [LowerChar(s[0])] + Lower(s[1..])
  }

  /** A string without upper-case letters is its own lower-case form. */
  lemma {:induction false} LowerOfLower(s: string)
    requires forall i :: 0 <= i < |s| ==> !IsUpper(s[i])
    ensures Lower(s) == s
  {
    if s != [] {
      LowerOfLower(s[1..]);
    }
  }

  lemma LowerIdempotent(s: string)
    ensures Lower(Lower(s)) == Lower(s)
  {
    LowerOfLower(Lower(s));
  }

  /** Lower-casing brings in a character only as the partner of an
      upper-case one. */
  lemma LowerAvoids(s: string, c: char)
    requires forall i :: 0 <= i < |s| ==> LowerChar(s[i]) != c
    ensures forall i :: 0 <= i < |Lower(s)| ==> Lower(s)[i] != c
  {
    forall i | 0 <= i < |s| ensures Lower(s)[i] != c {
      assert Lower(s)[i] as int == LowerChar(s[i]) as int;
    }
  }

  // ---------------------------------------------------------- substrings

  /** `t` occurs in `s` starting at index `i`. */
  predicate OccursAt(s: string, t: string, i: int) {
    0 <= i && i + |t| <= |s| && s[i..i + |t|] == t
  }

  /** `s.includes(t)`. */
  function Contains(s: string, t: string): (r: bool)
    ensures t == [] ==> r
    ensures r ==> |t| <= |s|
  {
    if t <= s then true else if s == [] then false else Contains(s[1..], t)
  }

  /** `Contains` means exactly "occurs at some index". */
  lemma {:induction false} ContainsIff(s: string, t: string)
    ensures Contains(s, t) <==> exists i :: OccursAt(s, t, i)
  {
    if t <= s {
      assert OccursAt(s, t, 0);
    } else if s == [] {
    } else {
      ContainsIff(s[1..], t);
      if exists i :: OccursAt(s[1..], t, i) {
        var i :| OccursAt(s[1..], t, i);
        assert s[i + 1..i + 1 + |t|] == s[1..][i..i + |t|];
        assert OccursAt(s, t, i + 1);
      }
      if exists i :: OccursAt(s, t, i) {
        var i :| OccursAt(s, t, i);
        assert i > 0;
        assert s[1..][i - 1..i - 1 + |t|] == s[i..i + |t|];
        assert OccursAt(s[1..], t, i - 1);
      }
    }
  }

  /** A term cannot occur where its first character does not. */
  lemma {:induction false} NotContainsFirstChar(s: string, t: string)
    requires t != [] && forall i :: 0 <= i < |s| ==> s[i] != t[0]
    ensures !Contains(s, t)
  {
    if s != [] {
      assert !(t <= s) by {
        assert s[0] != t[0];
      }
      assert forall i :: 0 <= i < |s[1..]| ==> s[1..][i] == s[i + 1];
      NotContainsFirstChar(s[1..], t);
    }
  }

  // ------------------------------------------------------- decimal text

  predicate IsDigit(c: char) {
    '0' <= c <= '9'
  }

  predicate AllDigits(s: string) {
    forall i :: 0 <= i < |s| ==> IsDigit(s[i])
  }

  function DigitChar(d: nat): (c: char)
    requires d < 10
    ensures IsDigit(c)
  {
    ('0' as int + d) as char
  }

  function DigitValue(c: char): (d: nat)
    requires IsDigit(c)
    ensures d < 10
  {
    c as int - '0' as int
  }

  /** Decimal text of a natural number, most significant digit first. */
  function NatToDecimal(n: nat): (r: string)
    ensures |r| >= 1 && AllDigits(r)
    ensures r[0] == '0' ==> n == 0
    ensures |r| > 1 ==> r[0] != '0'
  {
    if n < 10 then [DigitChar(n)] else NatToDecimal(n / 10) + [DigitChar(n % 10)]
  }

  /** `n.toString()` for an integer-valued number. */
  function IntToDecimal(n: int): (r: string)
    ensures |r| >= 1
    ensures n >= 0 <==> AllDigits(r)
    ensures n < 0 <==> r[0] == '-'
    ensures n < 0 ==> AllDigits(r[1..])
    ensures n >= 0 && |r| > 1 ==> r[0] != '0'
    ensures n < 0 ==> |r| >= 2 && r[1] != '0'
  {
    if n < 0 then
      var r := "-" + NatToDecimal(-n);
      assert r[0] == '-' && r[1..] == NatToDecimal(-n);
      r
    else NatToDecimal(n)
  }

  /** The number a string of decimal digits denotes. */
  function DigitsValue(ds: string): nat
    requires AllDigits(ds)
  {
    if ds == [] then 0 else DigitsValue(ds[..|ds| - 1]) * 10 + DigitValue(ds[|ds| - 1])
  }

  lemma {:induction false} DigitsValueOfDecimal(n: nat)
    ensures DigitsValue(NatToDecimal(n)) == n
  {
    if n >= 10 {
      var s := NatToDecimal(n);
      assert s[..|s| - 1] == NatToDecimal(n / 10);
      DigitsValueOfDecimal(n / 10);
    }
  }

  // ------------------------------------------------------------ parsing

  /** The white space `parseInt` skips before the number (ASCII part). */
  predicate IsSpace(c: char) {
    c == ' ' || c == '\t' || c == '\n' || c == '\r' || c == '\U{000B}' || c == '\U{000C}'
  }

  predicate AllSpace(w: string) {
    forall i :: 0 <= i < |w| ==> IsSpace(w[i])
  }

  /** Drop the leading white space: what is dropped is all white space, and
      what is left does not start with any. */
  function SkipSpace(s: string): (r: string)
    ensures |r| <= |s| && r == s[|s| - |r|..]
    ensures AllSpace(s[..|s| - |r|])
    ensures r == [] || !IsSpace(r[0])
  {
    if s != [] && IsSpace(s[0]) then SkipSpace(s[1..]) else s
  }

  /** The longest prefix of `s` made of decimal digits. */
  function DigitPrefix(s: string): (r: string)
    ensures r <= s && AllDigits(r)
    ensures |r| < |s| ==> !IsDigit(s[|r|])
  {
    if s != [] && IsDigit(s[0]) then [s[0]] + DigitPrefix(s[1..]) else []
  }

  /** `parseInt(s, 10)`: skip leading white space, read an optional sign, then
      the longest run of digits; no digits at all gives NaN, here `None`. */
  function ParseInt(s: string): (r: Option<int>)
    ensures s != [] && AllDigits(s) ==> r.Some?
    ensures s == [] ==> r.None?
  {
    ParseSigned(SkipSpace(s))
  }

  /** The part of `parseInt` after the white space. */
  function ParseSigned(t: string): (r: Option<int>)
    ensures t != [] && AllDigits(t) ==> r.Some?
    ensures t == [] ==> r.None?
    ensures r.Some? && t[0] == '-' ==> r.value <= 0
    ensures r.Some? && t[0] != '-' ==> r.value >= 0
  {
    var negative := t != [] && t[0] == '-';
    var body := if t != [] && (t[0] == '-' || t[0] == '+') then t[1..] else t;
    var ds := DigitPrefix(body);
    if ds == [] then None
    else Some(if negative then -(DigitsValue(ds) as int) else DigitsValue(ds))
  }

  /** `parseInt(s, 10) || 0`: NaN (and zero) become 0. */
  function ParseIntOrZero(s: string): (r: int)
    ensures ParseInt(s).None? ==> r == 0
    ensures ParseInt(s).Some? ==> r == ParseInt(s).value
  {
    match ParseInt(s)
    case None => 0
    case Some(v) => v
  }

  /** The sign `parseInt` accepts in front of the digits: none, '+' or '-'. */
  predicate OptionalSign(sg: string) {
    sg == "" || sg == "+" || sg == "-"
  }

  /** `s` is white space `w`, an optional sign `sg`, a non-empty run of
      digits `ds`, and a `rest` that does not continue the run. */
  predicate NumberLayout(s: string, w: string, sg: string, ds: string, rest: string) {
    s == w + sg + ds + rest && AllSpace(w) && OptionalSign(sg)
    && ds != [] && AllDigits(ds) && (rest == [] || !IsDigit(rest[0]))
  }

  /** The number a sign and a run of digits stand for. */
  function SignedValue(sg: string, ds: string): int
    requires AllDigits(ds)
  {
    if sg == "-" then -(DigitsValue(ds) as int) else DigitsValue(ds)
  }

  lemma {:induction false} SkipSpaceOver(w: string, x: string)
    requires AllSpace(w)
    requires x == [] || !IsSpace(x[0])
    ensures SkipSpace(w + x) == x
  {
    if w == [] {
      assert w + x == x;
    } else {
      assert (w + x)[0] == w[0] && (w + x)[1..] == w[1..] + x;
      SkipSpaceOver(w[1..], x);
    }
  }

  lemma {:induction false} DigitPrefixOfRun(ds: string, rest: string)
    requires AllDigits(ds)
    requires rest == [] || !IsDigit(rest[0])
    ensures DigitPrefix(ds + rest) == ds
  {
    if ds == [] {
      assert ds + rest == rest;
    } else {
      assert (ds + rest)[0] == ds[0] && (ds + rest)[1..] == ds[1..] + rest;
      DigitPrefixOfRun(ds[1..], rest);
      assert ds == [ds[0]] + ds[1..];
    }
  }

  lemma ParseSignedOfLayout(sg: string, ds: string, rest: string)
    requires OptionalSign(sg) && ds != [] && AllDigits(ds)
    requires rest == [] || !IsDigit(rest[0])
    ensures ParseSigned(sg + ds + rest) == Some(SignedValue(sg, ds))
  {
    DigitPrefixOfRun(ds, rest);
    if sg == "" {
      UnsignedRun(ds, rest);
    } else {
      SignedRun(sg, ds, rest);
    }
  }

  lemma UnsignedRun(ds: string, rest: string)
    requires ds != [] && AllDigits(ds) && DigitPrefix(ds + rest) == ds
    ensures ParseSigned("" + ds + rest) == Some(DigitsValue(ds) as int)
  {
    assert "" + ds + rest == ds + rest;
    ParseSignedNoSign(ds + rest);
  }

  lemma SignedRun(sg: string, ds: string, rest: string)
    requires (sg == "-" || sg == "+") && ds != [] && AllDigits(ds) && DigitPrefix(ds + rest) == ds
    ensures ParseSigned(sg + ds + rest) == Some(SignedValue(sg, ds))
  {
    if sg == "-" {
      SignThenRun('-', ds, rest);
    } else {
      SignThenRun('+', ds, rest);
    }
  }

  lemma SignThenRun(c: char, ds: string, rest: string)
    requires (c == '-' || c == '+') && ds != [] && AllDigits(ds) && DigitPrefix(ds + rest) == ds
    ensures ParseSigned([c] + ds + rest) == Some(if c == '-' then -(DigitsValue(ds) as int) else DigitsValue(ds))
  {
    assert [c] + ds + rest == [c] + (ds + rest);
    ParseSignedAfterSign(c, ds + rest);
  }

  /** Without a sign, `parseInt` reads the digit prefix as it stands. */
  lemma ParseSignedNoSign(x: string)
    requires x != [] && IsDigit(x[0])
    ensures DigitPrefix(x) != [] && ParseSigned(x) == Some(DigitsValue(DigitPrefix(x)))
  {
  }

  /** After a sign, `parseInt` reads the digit prefix of what follows. */
  lemma ParseSignedAfterSign(c: char, y: string)
    requires c == '-' || c == '+'
    ensures ParseSigned([c] + y)
         == if DigitPrefix(y) == [] then None
            else Some(if c == '-' then -(DigitsValue(DigitPrefix(y)) as int) else DigitsValue(DigitPrefix(y)))
  {
    assert ([c] + y)[1..] == y;
  }

  /** `parseInt` reads the digit run that follows the white space and the
      sign, and ignores whatever comes after it: `"  +12abc"` gives 12. */
  lemma ParseIntOfLayout(s: string, w: string, sg: string, ds: string, rest: string)
    requires NumberLayout(s, w, sg, ds, rest)
    ensures ParseInt(s) == Some(SignedValue(sg, ds))
  {
    var x := sg + ds + rest;
    assert s == w + x;
    assert !IsSpace(x[0]) by {
      assert x[0] == if sg == "" then ds[0] else sg[0];
    }
    SkipSpaceOver(w, x);
    ParseSignedOfLayout(sg, ds, rest);
  }

  /** `t` is an optional sign, a non-empty run of digits and a `rest` that
      does not continue the run. */
  predicate SignedLayout(t: string, sg: string, ds: string, rest: string) {
    t == sg + ds + rest && OptionalSign(sg) && ds != [] && AllDigits(ds) && (rest == [] || !IsDigit(rest[0]))
  }

  lemma ParseSignedHasLayout(t: string) returns (sg: string, ds: string, rest: string)
    requires ParseSigned(t).Some?
    ensures SignedLayout(t, sg, ds, rest)
  {
    if t[0] == '-' || t[0] == '+' {
      assert DigitPrefix(t[1..]) != [];
      SignedLayoutAfterSign(t);
      sg, ds, rest := [t[0]], DigitPrefix(t[1..]), t[1..][|DigitPrefix(t[1..])|..];
    } else {
      assert DigitPrefix(t) != [];
      SignedLayoutNoSign(t);
      sg, ds, rest := "", DigitPrefix(t), t[|DigitPrefix(t)|..];
    }
  }

  lemma SignedLayoutNoSign(t: string)
    requires DigitPrefix(t) != []
    ensures SignedLayout(t, "", DigitPrefix(t), t[|DigitPrefix(t)|..])
  {
    var ds := DigitPrefix(t);
    SplitDigits(t);
    assert t == "" + ds + t[|ds|..];
    assert OptionalSign("");
  }

  lemma SignedLayoutAfterSign(t: string)
    requires t != [] && (t[0] == '-' || t[0] == '+') && DigitPrefix(t[1..]) != []
    ensures SignedLayout(t, [t[0]], DigitPrefix(t[1..]), t[1..][|DigitPrefix(t[1..])|..])
  {
    var body := t[1..];
    var ds := DigitPrefix(body);
    var rest := body[|ds|..];
    SplitDigits(body);
    assert t == [t[0]] + body;
    assert OptionalSign([t[0]]);
    assert rest == [] || !IsDigit(rest[0]);
  }

  /** A string is its digit prefix followed by the rest. */
  lemma SplitDigits(body: string)
    ensures body == DigitPrefix(body) + body[|DigitPrefix(body)|..]
  {
  }

  /** Every number `parseInt` reads comes from such a layout. */
  lemma ParseIntHasLayout(s: string)
    requires ParseInt(s).Some?
    ensures exists w, sg, ds, rest :: NumberLayout(s, w, sg, ds, rest)
  {
    var t := SkipSpace(s);
    var sg, ds, rest := ParseSignedHasLayout(t);
    var w := SpaceSplit(s);
    LayoutAfterSpace(s, w, t, sg, ds, rest);
  }

  /** The white space `SkipSpace` drops, as a prefix of `s`. */
  lemma SpaceSplit(s: string) returns (w: string)
    ensures s == w + SkipSpace(s) && AllSpace(w)
  {
    var k := |s| - |SkipSpace(s)|;
    w := s[..k];
    SplitAt(s, k);
  }

  lemma SplitAt(s: string, k: nat)
    requires k <= |s|
    ensures s == s[..k] + s[k..]
  {
  }

  lemma LayoutAfterSpace(s: string, w: string, t: string, sg: string, ds: string, rest: string)
    requires s == w + t && AllSpace(w) && SignedLayout(t, sg, ds, rest)
    ensures NumberLayout(s, w, sg, ds, rest)
  {
  }

  /** `parseInt` gives NaN exactly when no digit follows the white space and
      the sign: `"abc"`, `"-"` and `"  "` all give NaN. */
  lemma ParseIntNoneIff(s: string)
    ensures ParseInt(s).None? <==> !exists w, sg, ds, rest :: NumberLayout(s, w, sg, ds, rest)
  {
    if exists w, sg, ds, rest :: NumberLayout(s, w, sg, ds, rest) {
      var w, sg, ds, rest :| NumberLayout(s, w, sg, ds, rest);
      ParseIntOfLayout(s, w, sg, ds, rest);
    }
    if ParseInt(s).Some? {
      ParseIntHasLayout(s);
    }
  }

  /** A sign and digits with nothing around them. */
  lemma ParseIntOfSignedDigits(sg: string, ds: string)
    requires OptionalSign(sg) && ds != [] && AllDigits(ds)
    ensures ParseInt(sg + ds) == Some(SignedValue(sg, ds))
  {
    assert sg + ds == [] + sg + ds + [];
    ParseIntOfLayout(sg + ds, [], sg, ds, []);
  }

  /** Reading back the decimal text of any integer gives the integer. */
  lemma ParseIntOfDecimal(n: int)
    ensures ParseInt(IntToDecimal(n)) == Some(n)
    ensures ParseIntOrZero(IntToDecimal(n)) == n
  {
    var m: nat := if n < 0 then -n else n;
    var ds := NatToDecimal(m);
    DigitsValueOfDecimal(m);
    assert DigitsValue(ds) == m;
    if n < 0 {
      assert IntToDecimal(n) == "-" + ds;
      ParseIntOfSignedDigits("-", ds);
    } else {
      assert IntToDecimal(n) == "" + ds;
      ParseIntOfSignedDigits("", ds);
    }
  }

}
