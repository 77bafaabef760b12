/** The small part of JavaScript's value semantics that the menu page relies on:
    truthiness, `Number(...)`, `parseInt(...)`, `String(...)`, `trim`, `split`,
    global single-character `replace`, `includes` and `toLowerCase`.
    Numbers are restricted to integers plus NaN. */
module JsValues {

  datatype Option<T> = None | Some(value: T)

  datatype Result<T, E> = Ok(value: T) | Err(error: E)

  /** A JavaScript number value, restricted to the integers and NaN. */
  datatype Number = NaN | Int(i: int)

  /** A JavaScript primitive value as it arrives from JSON or from a DOM attribute. */
  datatype Value = Undefined | Null | Bool(b: bool) | Num(n: Number) | Str(s: string)

  /** The falsy values: undefined, null, false, NaN, 0 and "". */
  predicate Truthy(v: Value) {
    match v
    case Undefined => false
    case Null => false
    case Bool(b) => b
    case Num(n) => n != NaN && n != Int(0)
    case Str(s) => s != ""
  }

  // ----- characters -----

  /** The characters `String.prototype.trim` removes: WhiteSpace and LineTerminator. */
  predicate IsWhitespace(c: char) {
    if c < '\U{00A0}' then
      c == ' ' || ('\t' <= c <= '\r')  // tab, line feed, vertical tab, form feed, carriage return
    else
      (c == '\U{00A0}' || c == '\U{1680}' || ('\U{2000}' <= c <= '\U{200A}')
       || c == '\U{2028}' || c == '\U{2029}' || c == '\U{202F}' || c == '\U{205F}'
       || c == '\U{3000}' || c == '\U{FEFF}')
  }

  predicate IsDigit(c: char) { '0' <= c <= '9' }

  predicate AllDigits(s: string) { forall i :: 0 <= i < |s| ==> IsDigit(s[i]) }

  predicate AllWhitespace(s: string) { forall i :: 0 <= i < |s| ==> IsWhitespace(s[i]) }

  function DigitValue(c: char): (d: nat)
    requires IsDigit(c)
    ensures d < 10
  {
    (c as int) - ('0' as int)
  }

  function DigitChar(d: nat): (c: char)
    requires d < 10
    ensures IsDigit(c) && DigitValue(c) == d
  {
    (('0' as int) + d) as char
  }

  // ----- trimming -----

  /** `s.trimStart()`. */
  function TrimStart(s: string): string {
    if s == [] || !IsWhitespace(s[0]) then s else TrimStart(s[1..])
  }

  /** `s.trimEnd()`. */
  function TrimEnd(s: string): string {
    if s == [] || !IsWhitespace(s[|s| - 1]) then s else TrimEnd(s[..|s| - 1])
  }

  /** `s.trim()`. */
  function Trim(s: string): string {
    TrimEnd(TrimStart(s))
  }

  /** `trimStart` drops the leading whitespace and nothing else. */
  lemma {:induction false} TrimStartSpec(s: string)
    ensures var r := TrimStart(s);
      |r| <= |s| && r == s[|s| - |r|..] && (r == [] || !IsWhitespace(r[0]))
      && AllWhitespace(s[..|s| - |r|])
  {
    if s != [] && IsWhitespace(s[0]) {
      TrimStartSpec(s[1..]);
      var rest := TrimStart(s[1..]);
      assert s[1..][..|s| - 1 - |rest|] == s[1..|s| - |rest|];
      assert s[..|s| - |rest|] == [s[0]] + s[1..|s| - |rest|];
    } else {
      assert s[..0] == [];
    }
  }

  /** `trimEnd` drops the trailing whitespace and nothing else. */
  lemma {:induction false} TrimEndSpec(s: string)
    ensures var r := TrimEnd(s);
      |r| <= |s| && r == s[..|r|] && (r == [] || !IsWhitespace(r[|r| - 1]))
      && AllWhitespace(s[|r|..])
  {
    if s != [] && IsWhitespace(s[|s| - 1]) {
      TrimEndSpec(s[..|s| - 1]);
      var rest := TrimEnd(s[..|s| - 1]);
      assert s[|rest|..] == s[..|s| - 1][|rest|..] + [s[|s| - 1]];
    } else {
      assert s[|s|..] == [];
    }
  }

  /** A string with no whitespace at either end; `trim` leaves it as it is. */
  predicate Unpadded(s: string) {
    s != [] && !IsWhitespace(s[0]) && !IsWhitespace(s[|s| - 1])
  }

  lemma {:induction false} TrimStartSkips(l: string, s: string)
    requires AllWhitespace(l) && (s == [] || !IsWhitespace(s[0]))
    ensures TrimStart(l + s) == s
  {
    if l == [] {
      assert l + s == s;
    } else {
      assert (l + s)[1..] == l[1..] + s;
      TrimStartSkips(l[1..], s);
    }
  }

  lemma {:induction false} TrimEndSkips(s: string, r: string)
    requires AllWhitespace(r) && (s == [] || !IsWhitespace(s[|s| - 1]))
    ensures TrimEnd(s + r) == s
    decreases |r|
  {
    if r == [] {
      assert s + r == s;
    } else {
      assert (s + r)[..|s + r| - 1] == s + r[..|r| - 1];
      TrimEndSkips(s, r[..|r| - 1]);
    }
  }

  /** Trimming removes exactly the whitespace around an unpadded text. */
  lemma TrimAround(l: string, s: string, r: string)
    requires AllWhitespace(l) && Unpadded(s) && AllWhitespace(r)
    ensures Trim(l + s + r) == s
  {
    assert l + s + r == l + (s + r);
    TrimStartSkips(l, s + r);
    TrimEndSkips(s, r);
  }

  /** A leading space makes no difference to `trim`. */
  lemma TrimLeadingSpace(s: string)
    ensures Trim(" " + s) == Trim(s)
  {
    assert (" " + s)[1..] == s;
  }

  /** `trim` keeps a slice of its input, so it brings in no character that was not there. */
  lemma TrimKeepsAbsent(s: string, x: char)
    requires x !in s
    ensures x !in Trim(s)
  {
    TrimStartSpec(s);
    var t := TrimStart(s);
    TrimEndSpec(t);
    assert x !in t by { assert forall k :: 0 <= k < |t| ==> t[k] == s[|s| - |t| + k]; }
  }

  /** A string trims to "" exactly when every character of it is whitespace. */
  lemma TrimEmptyIff(s: string)
    ensures Trim(s) == [] <==> AllWhitespace(s)
  {
    var t := TrimStart(s);
    TrimStartSpec(s);
    TrimEndSpec(t);
    if Trim(s) == [] {
      assert t == [];
      assert s[..|s|] == s;
    } else {
      var r := Trim(s);
      assert r == t[..|r|] && t == s[|s| - |t|..];
      assert !IsWhitespace(s[|s| - |t|]);
    }
  }

  // ----- decimal numerals -----

  /** The value of a string of decimal digits, most significant first. */
  function DecimalValue(s: string): nat
    requires AllDigits(s)
  {
    if s == [] then 0 else DecimalValue(s[..|s| - 1]) * 10 + DigitValue(s[|s| - 1])
  }

  /** The decimal numeral of a natural number, as `String(n)` writes it. */
  function NatToString(n: nat): (s: string)
    ensures |s| >= 1 && AllDigits(s)
    ensures DecimalValue(s) == n
    ensures s[0] != '0' || n == 0
    decreases n
  {
    if n < 10 then [DigitChar(n)]
    else
      var init := NatToString(n / 10);
      var s := init + [DigitChar(n % 10)];
      assert s[..|s| - 1] == init;
      s
  }

  lemma {:induction false} DecimalValueOfLeadingDigit(s: string)
    requires s != [] && AllDigits(s) && s[0] != '0'
    ensures DecimalValue(s) >= 1
    decreases |s|
  {
    if |s| > 1 {
      DecimalValueOfLeadingDigit(s[..|s| - 1]);
    } else {
      assert s[..0] == [];
    }
  }

  /** A decimal numeral without leading zeros is the one `String` writes for its value. */
  lemma {:induction false} NatToStringOfNumeral(s: string)
    requires s != [] && AllDigits(s) && (s[0] != '0' || |s| == 1)
    ensures NatToString(DecimalValue(s)) == s
    decreases |s|
  {
    var last := s[|s| - 1];
    assert DigitChar(DigitValue(last)) == last;
    if |s| == 1 {
      assert s[..0] == [];
      assert s == [last];
    } else {
      var init := s[..|s| - 1];
      assert init[0] == s[0];
      DecimalValueOfLeadingDigit(init);
      NatToStringOfNumeral(init);
      var n := DecimalValue(s);
      assert n / 10 == DecimalValue(init) && n % 10 == DigitValue(last);
      assert s == init + [last];
    }
  }

  /** `String(i)` for an integer. */
  function IntToString(i: int): (s: string)
    ensures |s| >= 1
    ensures i >= 0 ==> AllDigits(s)
    ensures i < 0 ==> s[0] == '-' && AllDigits(s[1..])
  {
    if i < 0 then "-" + NatToString(-i) else NatToString(i)
  }

  /** The length of the longest prefix of `s` made of decimal digits. */
  function DigitPrefixLength(s: string): (k: nat)
    ensures k <= |s| && AllDigits(s[..k])
    ensures k < |s| ==> !IsDigit(s[k])
  {
    if s == [] || !IsDigit(s[0]) then 0
    else
      var k := 1 + DigitPrefixLength(s[1..]);
      assert s[..k] == [s[0]] + s[1..][..k - 1];
      k
  }

  /** `parseInt(s)` with no radix, for a decimal numeral: leading whitespace is skipped, an optional
      sign is read, then the longest run of digits; no digits at all gives NaN. */
  function ParseInt(s: string): Number {
    var t := TrimStart(s);
    var negative := |t| > 0 && t[0] == '-';
    var body := if |t| > 0 && (t[0] == '-' || t[0] == '+') then t[1..] else t;
    var k := DigitPrefixLength(body);
    if k == 0 then NaN
    else
      var magnitude: int := DecimalValue(body[..k]);
      Int(if negative then -magnitude else magnitude)
  }

  /** The value of a non-empty run of decimal digits, or None when `t` is empty or holds
      anything else. */
  function DigitsValue(t: string): Option<nat> {
    if t == [] || !IsDigit(t[|t| - 1]) then None
    else if |t| == 1 then Some(DigitValue(t[0]))
    else match DigitsValue(t[..|t| - 1])
      case None => None
      case Some(v) => Some(v * 10 + DigitValue(t[|t| - 1]))
  }

  lemma {:induction false} DigitsValueOfDigits(t: string)
    requires t != [] && AllDigits(t)
    ensures DigitsValue(t) == Some(DecimalValue(t))
  {
    if |t| > 1 {
      DigitsValueOfDigits(t[..|t| - 1]);
    } else {
      assert t[..0] == [];
    }
  }

  /** `Number(s)` for a string: surrounding whitespace is ignored, the empty string is 0, an optionally
      signed run of decimal digits is its value, and anything else is NaN. */
  function StringToNumber(s: string): Number {
    var t := Trim(s);
    if t == [] then Int(0)
    else
      var signed := t[0] == '-' || t[0] == '+';
      match DigitsValue(if signed then t[1..] else t)
      case None => NaN
      case Some(v) => var n: int := v; Int(if t[0] == '-' then -n else n)
  }

  /** `Number(v)`. */
  function ToNumber(v: Value): Number {
    match v
    case Undefined => NaN
    case Null => Int(0)
    case Bool(b) => Int(if b then 1 else 0)
    case Num(n) => n
    case Str(s) => StringToNumber(s)
  }

  /** `String(v)` for a primitive value. */
  function ToString(v: Value): string {
    match v
    case Undefined => "undefined"
    case Null => "null"
    case Bool(b) => if b then "true" else "false"
    case Num(NaN) => "NaN"
    case Num(Int(i)) => IntToString(i)
    case Str(s) => s
  }

  /** `v == k` (loose equality) against the number `k`: null and undefined equal no number; any other
      primitive is converted with `Number` first. */
  predicate LooseEqualsNumber(v: Value, k: int) {
    v != Undefined && v != Null && ToNumber(v) == Int(k)
  }

  lemma {:induction false} DigitPrefixOfDigits(s: string)
    requires AllDigits(s)
    ensures DigitPrefixLength(s) == |s|
  {
    if s != [] {
      DigitPrefixOfDigits(s[1..]);
    }
  }

  /** Writing an integer with `String` and reading it back with `parseInt` gives the integer. */
  lemma ParseIntOfIntToString(i: int)
    ensures ParseInt(IntToString(i)) == Int(i)
  {
    var s := IntToString(i);
    assert TrimStart(s) == s;
    if i < 0 {
      assert s[1..] == NatToString(-i);
      DigitPrefixOfDigits(s[1..]);
      assert s[1..][..|s| - 1] == s[1..];
    } else {
      DigitPrefixOfDigits(s);
      assert s[..|s|] == s;
    }
  }

  lemma TrimOfDigits(s: string)
    requires AllDigits(s)
    ensures Trim(s) == s
  {
    assert TrimStart(s) == s;
  }

  /** Writing an integer with `String` and reading it back with `Number` gives the integer. */
  lemma StringToNumberOfIntToString(i: int)
    ensures StringToNumber(IntToString(i)) == Int(i)
  {
    var s := IntToString(i);
    if i < 0 {
      assert s[1..] == NatToString(-i);
      DigitsValueOfDigits(s[1..]);
    } else {
      DigitsValueOfDigits(s);
    }
    assert TrimStart(s) == s;
    assert TrimEnd(s) == s by {
      if i < 0 { assert s[|s| - 1] == s[1..][|s| - 2]; }
    }
  }

  // ----- string functions -----

  /** `s.replace(/c/g, rep)`: every occurrence of the character `c` is replaced by `rep`. */
  function ReplaceAll(s: string, c: char, rep: string): (r: string)
    ensures |rep| == 1 ==> |r| == |s|
  {
    if s == [] then []
    else (if s[0] == c then rep else [s[0]]) + ReplaceAll(s[1..], c, rep)
  }

  /** After the replacement no occurrence of `c` is left, unless the replacement brings one in. */
  lemma {:induction false} ReplaceAllRemoves(s: string, c: char, rep: string)
    requires c !in rep
    ensures c !in ReplaceAll(s, c, rep)
  {
    if s != [] {
      ReplaceAllRemoves(s[1..], c, rep);
      var head := if s[0] == c then rep else [s[0]];
      assert c !in head;
    }
  }

  /** A character that is in neither the string nor the replacement is not in the result. */
  lemma {:induction false} ReplaceAllKeepsAbsent(s: string, c: char, rep: string, x: char)
    requires x !in s && x !in rep
    ensures x !in ReplaceAll(s, c, rep)
  {
    if s != [] {
      assert x !in s[1..] by { assert forall k :: 0 <= k < |s| - 1 ==> s[1..][k] == s[k + 1]; }
      ReplaceAllKeepsAbsent(s[1..], c, rep, x);
    }
  }

  lemma {:induction false} ReplaceAllConcat(a: string, b: string, c: char, rep: string)
    ensures ReplaceAll(a + b, c, rep) == ReplaceAll(a, c, rep) + ReplaceAll(b, c, rep)
  {
    if a != [] {
      var head := if a[0] == c then rep else [a[0]];
      assert (a + b)[0] == a[0] && (a + b)[1..] == a[1..] + b;
      calc {
        ReplaceAll(a + b, c, rep);
        head + ReplaceAll(a[1..] + b, c, rep);
        { ReplaceAllConcat(a[1..], b, c, rep); }
        head + (ReplaceAll(a[1..], c, rep) + ReplaceAll(b, c, rep));
        (head + ReplaceAll(a[1..], c, rep)) + ReplaceAll(b, c, rep);
      }
    } else {
      assert a + b == b;
    }
  }

  lemma {:induction false} ReplaceAllAbsent(s: string, c: char, rep: string)
    requires c !in s
    ensures ReplaceAll(s, c, rep) == s
  {
    if s != [] {
      ReplaceAllAbsent(s[1..], c, rep);
    }
  }

  /** The index of the first occurrence of `c` in `s`. */
  function IndexOf(s: string, c: char): (i: nat)
    requires c in s
    ensures i < |s| && s[i] == c && c !in s[..i]
  {
    if s[0] == c then 0
    else
      var i := 1 + IndexOf(s[1..], c);
      assert s[..i] == [s[0]] + s[1..][..i - 1];
      i
  }

  /** `s.split(c)` for a one-character separator. */
  function Split(s: string, c: char): (parts: seq<string>)
    ensures |parts| >= 1
    ensures c in s ==> |parts| >= 2
    ensures c !in s ==> parts == [s]
    ensures forall k :: 0 <= k < |parts| ==> c !in parts[k]
    decreases |s|
  {
    if c !in s then [s]
    else
      var i := IndexOf(s, c);
      [s[..i]] + Split(s[i + 1..], c)
  }

  /** Every piece of a split is a slice of the input, so it holds no character the input lacks. */
  lemma {:induction false} SplitKeepsAbsent(s: string, c: char, x: char)
    requires x !in s
    ensures forall k :: 0 <= k < |Split(s, c)| ==> x !in Split(s, c)[k]
    decreases |s|
  {
    if c in s {
      var i := IndexOf(s, c);
      assert x !in s[..i] && x !in s[i + 1..];
      SplitKeepsAbsent(s[i + 1..], c, x);
    }
  }

  /** Splitting at a separator whose first occurrence follows `a`. */
  lemma SplitAt(a: string, c: char, b: string)
    requires c !in a
    ensures Split(a + [c] + b, c) == [a] + Split(b, c)
  {
    var s := a + [c] + b;
    assert s[|a|] == c;
    var i := IndexOf(s, c);
    assert i <= |a| by {
      assert s[..|a| + 1][|a|] == c;
    }
    assert s[..i] == a && s[i + 1..] == b;
  }

  /** `s.startsWith(p)`. */
  predicate StartsWith(s: string, p: string) {
    p <= s
  }

  /** `pat` occurs in `t` at position `j`. */
  predicate InfixAt(t: string, pat: string, j: nat) {
    j + |pat| <= |t| && t[j..j + |pat|] == pat
  }

  /** The position of the first occurrence of `pat` in `t`. */
  function FindInfix(t: string, pat: string): (r: Option<nat>)
    ensures r.Some? ==> InfixAt(t, pat, r.value)
    decreases |t|
  {
    if |t| < |pat| then None
    else if t[..|pat|] == pat then Some(0)
    else match FindInfix(t[1..], pat)
      case None => None
      case Some(k) => Some(k + 1)
  }

  /** `t.includes(pat)`. */
  predicate HasInfix(t: string, pat: string) {
    FindInfix(t, pat).Some?
  }

  /** The first occurrence of a non-empty pattern in `a + pat + b` is at `|a|` when no occurrence
      starts inside `a`, that is, inside `a` followed by all but the last character of `pat`. */
  lemma {:induction false} FindInfixAfter(a: string, pat: string, b: string)
    requires |pat| >= 1
    requires !HasInfix(a + pat[..|pat| - 1], pat)
    ensures FindInfix(a + pat + b, pat) == Some(|a|)
    decreases |a|
  {
    var t := a + pat + b;
    if a == [] {
      assert t[..|pat|] == pat;
    } else {
      var u := a + pat[..|pat| - 1];
      assert t[..|pat|] == u[..|pat|] && u[1..] == a[1..] + pat[..|pat| - 1];
      FindInfixAfterStep(a, pat, b);
    }
  }

  lemma FindInfixAfterStep(a: string, pat: string, b: string)
    requires |pat| >= 1 && a != []
    requires !HasInfix(a + pat[..|pat| - 1], pat)
    requires (a + pat + b)[..|pat|] == (a + pat[..|pat| - 1])[..|pat|]
    requires (a + pat[..|pat| - 1])[1..] == a[1..] + pat[..|pat| - 1]
    ensures FindInfix(a + pat + b, pat) == Some(|a|)
    decreases |a|, 0
  {
    var t := a + pat + b;
    var u := a + pat[..|pat| - 1];
    assert u[..|pat|] != pat;
    assert !HasInfix(u[1..], pat);
    FindInfixAfter(a[1..], pat, b);
    assert t[1..] == a[1..] + pat + b;
  }

  /** `s.toLowerCase()` for the ASCII letters; every other character is left as it is. */
  function ToLowerAscii(s: string): (r: string)
    ensures |r| == |s|
    ensures forall i :: 0 <= i < |s| ==> r[i] == LowerAscii(s[i])
  {
    if s == [] then [] else [LowerAscii(s[0])] + ToLowerAscii(s[1..])
  }

  function LowerAscii(c: char): char {
    if 'A' <= c <= 'Z' then ((c as int) - ('A' as int) + ('a' as int)) as char else c
  }
}
