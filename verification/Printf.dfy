/**
  The formatter behind the user library's printf.
 */
module Printf {
  import opened Common

  const INT_MIN := -0x8000_0000
  const LONG_MIN := -0x8000_0000_0000_0000
  const DIGIT_CELLS := 20

  type Int = x: int | -0x8000_0000 <= x < 0x8000_0000
  type Long = x: int | -0x8000_0000_0000_0000 <= x < 0x8000_0000_0000_0000

  datatype Arg = CharArg(c: char) | IntArg(i: Int) | LongArg(l: Long) | StrArg(s: Option<string>)

  /** Division and remainder as C has them: towards zero. */
  function Quot(a: int, b: int): int
    requires b > 0
  {
    if a >= 0 then a / b else -((-a) / b)
  }

  function Rem(a: int, b: int): int
    requires b > 0
  {
    if a >= 0 then a % b else -((-a) % b)
  }

  /** Negation in two's complement: the smallest number is its own negative. */
  function NegInt(n: Int): Int {
    if n == INT_MIN then n else -n
  }

  function NegLong(n: Long): Long {
    if n == LONG_MIN then n else -n
  }

  function DigitChar(d: int): char
    requires -16 < d < 16
  {
    if d > 9 then ('A' as int + (d - 10)) as char else ('0' as int + d) as char
  }

  predicate Base(b: int) {
    b == 10 || b == 16
  }

  /** The digits of `n`, most significant first; nothing for zero. */
  function Digits(n: int, base: int): (r: string)
    requires Base(base)
    decreases if n < 0 then -n else n
  {
    if n == 0 then "" else Digits(Quot(n, base), base) + [DigitChar(Rem(n, base))]
  }

  function RenderInt(n: Int): string {
    if n == 0 then "0" else if n < 0 then "-" + Digits(NegInt(n), 10) else Digits(n, 10)
  }

  function RenderLong(n: Long): string {
    (if n < 0 then "-" else "") + "0x" + if n == 0 then "0" else Digits(if n < 0 then NegLong(n) else n, 16)
  }

  function Pow(b: int, k: nat): int {
    if k == 0 then 1 else b * Pow(b, k - 1)
  }

  // ---- Reading numbers back ----

  function DigitValue(c: char): int {
    if '0' <= c <= '9' then c as int - '0' as int else if 'A' <= c <= 'F' then c as int - 'A' as int + 10 else -1
  }

  predicate AllDigits(s: string, base: int) {
    forall i :: 0 <= i < |s| ==> 0 <= DigitValue(s[i]) < base
  }

  function Value(s: string, base: int): int {
    if s == "" then 0 else Value(s[..|s| - 1], base) * base + DigitValue(s[|s| - 1])
  }

  function ParseNat(s: string, base: int): Option<int> {
    if s != "" && AllDigits(s, base) then Some(Value(s, base)) else None
  }

  function Negated(p: Option<int>): Option<int> {
    if p.Some? then Some(-p.value) else None
  }

  function ParseInt(s: string): Option<int> {
    if s != "" && s[0] == '-' then Negated(ParseNat(s[1..], 10)) else ParseNat(s, 10)
  }

  function ParseHex(s: string): Option<int> {
    if |s| >= 2 && s[..2] == "0x" then ParseNat(s[2..], 16) else None
  }

  function ParseLong(s: string): Option<int> {
    if s != "" && s[0] == '-' then Negated(ParseHex(s[1..])) else ParseHex(s)
  }

  lemma DigitBack(d: int)
    requires 0 <= d < 16
    ensures DigitValue(DigitChar(d)) == d
  {
  }

  lemma ValueSnoc(s: string, c: char, base: int)
    requires AllDigits(s, base) && 0 <= DigitValue(c) < base
    ensures AllDigits(s + [c], base) && Value(s + [c], base) == Value(s, base) * base + DigitValue(c)
  {
    assert (s + [c])[..|s|] == s;
  }

  lemma {:induction false} DigitsValue(n: nat, base: int)
    requires Base(base)
    ensures ParseNat(Digits(n, base), base) == if n == 0 then None else Some(n)
    ensures n > 0 ==> 0 <= DigitValue(Digits(n, base)[0])
    decreases n
  {
    if n == 0 {
    } else {
      var q, d := n / base, n % base;
      DivRem(n, base);
      assert Digits(n, base) == Digits(q, base) + [DigitChar(d)];
      hide Digits;
      DigitsValue(q, base);
      DigitBack(d);
      DigitsZero(q, base);
      ValueSnoc(Digits(q, base), DigitChar(d), base);
    }
  }

  lemma DivRem(n: nat, base: int)
    requires Base(base)
    ensures n == n / base * base + n % base && 0 <= n % base < base && (n > 0 ==> 0 <= n / base < n)
  {
    if base == 10 { assert n == n / 10 * 10 + n % 10; } else { assert n == n / 16 * 16 + n % 16; }
  }

  lemma DigitsZero(n: nat, base: int)
    requires Base(base)
    ensures Digits(n, base) == "" <==> n == 0
  {
  }

  lemma ParsePositive(s: string)
    requires s != "" && 0 <= DigitValue(s[0])
    ensures ParseInt(s) == ParseNat(s, 10)
  {
  }

  lemma ParseNegative(s: string)
    ensures ParseInt("-" + s) == Negated(ParseNat(s, 10))
    ensures ParseLong("-" + s) == Negated(ParseHex(s))
  {
    assert ("-" + s)[1..] == s;
  }

  lemma ParsePrefixed(s: string)
    ensures ParseHex("0x" + s) == ParseNat(s, 16)
    ensures ParseLong("0x" + s) == ParseNat(s, 16)
  {
    assert ("0x" + s)[2..] == s && ("0x" + s)[..2] == "0x";
  }

  lemma ParseZero()
    ensures ParseNat("0", 10) == Some(0) && ParseNat("0", 16) == Some(0)
  {
    assert "0"[..0] == "";
  }

  /** A negative number whose last remainder is negative has no digit there. */
  lemma NegativeTail(n: int)
    requires n < 0 && (-n) % 10 != 0
    ensures ParseNat(Digits(n, 10), 10) == None
  {
    var s := Digits(n, 10);
    assert s[|s| - 1] == DigitChar(Rem(n, 10));
  }

  /** %d text reads back as the number if and only if the number is not INT_MIN. */
  lemma IntRoundTrip(n: Int)
    ensures ParseInt(RenderInt(n)) == Some(n) <==> n != INT_MIN
    ensures n == INT_MIN ==> ParseInt(RenderInt(n)) == None
  {
    hide Digits, ParseInt, ParseNat;
    if n == 0 {
      ParseZero();
      ParsePositive("0");
    } else if n < 0 {
      ParseNegative(Digits(NegInt(n), 10));
      if n == INT_MIN { NegativeTail(n); } else { DigitsValue(-n, 10); }
    } else {
      DigitsValue(n, 10);
      DigitsNonempty(n, 10);
      ParsePositive(Digits(n, 10));
    }
  }

  /** %x text reads back as the number if and only if the number is not LONG_MIN. */
  lemma LongRoundTrip(n: Long)
    ensures ParseLong(RenderLong(n)) == Some(n) <==> n != LONG_MIN
    ensures n == LONG_MIN ==> ParseLong(RenderLong(n)) == None
  {
    hide Digits, ParseLong, ParseHex, ParseNat;
    var m := if n < 0 then NegLong(n) else n;
    var text := if n == 0 then "0" else Digits(m, 16);
    ParsePrefixed(text);
    if n == 0 {
      ParseZero();
      assert RenderLong(n) == "0x" + text;
    } else if n < 0 {
      assert RenderLong(n) == "-" + ("0x" + text);
      ParseNegative("0x" + text);
      if n == LONG_MIN { LongMinText(); } else { DigitsValue(m, 16); }
    } else {
      assert RenderLong(n) == "0x" + text;
      DigitsValue(n, 16);
    }
  }

  lemma LongMinText()
    ensures ParseNat(Digits(LONG_MIN, 16), 16) == None
  {
    assert Pow(16, 15) == 0x1000_0000_0000_0000;
    LeadingDigit(LONG_MIN, 15);
    assert DigitValue('(') == -1;
  }

  /** -8 times a power of 16 starts with a character below '0'. */
  lemma {:induction false} LeadingDigit(n: int, k: nat)
    requires n == -8 * Pow(16, k)
    ensures Digits(n, 16) != "" && Digits(n, 16)[0] == '('
    decreases k
  {
    if k == 0 {
      assert Quot(-8, 16) == 0 && Rem(-8, 16) == -8;
      assert Digits(0, 16) == "";
    } else {
      assert Quot(n, 16) == -8 * Pow(16, k - 1);
      LeadingDigit(Quot(n, 16), k - 1);
    }
  }

  /** %u prints its argument as a signed number: the text is right if and only if the
      argument is below 2^31. */
  lemma UnsignedExact(u: int)
    requires 0 <= u < 0x1_0000_0000
    ensures var i: Int := if u < 0x8000_0000 then u else u - 0x1_0000_0000;
            ParseInt(RenderInt(i)) == Some(u) <==> u < 0x8000_0000
  {
    IntRoundTrip(if u < 0x8000_0000 then u else u - 0x1_0000_0000);
  }

  lemma {:induction false} DigitsLength(n: int, base: int, k: nat)
    requires Base(base) && -Pow(base, k) < n < Pow(base, k)
    ensures |Digits(n, base)| <= k
    decreases k
  {
    if n == 0 {
    } else {
      assert k > 0;
      assert Pow(base, k) == base * Pow(base, k - 1);
      DigitsLength(Quot(n, base), base, k - 1);
    }
  }

  /** The digit buffer has room for every int and every long. */
  lemma DigitsFit(n: Long)
    ensures |Digits(n, 16)| <= 16
    ensures INT_MIN <= n < 0x8000_0000 ==> |Digits(n, 10)| <= 10
  {
    assert Pow(16, 4) == 0x1_0000 && Pow(16, 8) == 0x1_0000 * Pow(16, 4);
    assert Pow(16, 12) == 0x1_0000 * Pow(16, 8) && Pow(16, 16) == 0x1_0000 * Pow(16, 12);
    DigitsLength(n, 16, 16);
    if INT_MIN <= n < 0x8000_0000 {
      assert Pow(10, 5) == 100000 && Pow(10, 10) == 100000 * Pow(10, 5);
      DigitsLength(n, 10, 10);
    }
  }

  // ---- Formats ----

  predicate TakesArg(c: char) {
    c == 'c' || c == 'd' || c == 'u' || c == 'x' || c == 's'
  }

  /** The argument has the type the conversion reads; a string has no NUL in it. */
  predicate Suits(c: char, a: Arg) {
    match a
    case CharArg(_) => c == 'c'
    case IntArg(_) => c == 'd' || c == 'u'
    case LongArg(_) => c == 'x'
    case StrArg(s) => c == 's' && (s.Some? ==> '\0' !in s.value)
  }

  /** The arguments are those the format asks for, and it has no NUL in it and does not end
      in a lone '%'. */
  predicate Matches(format: string, args: seq<Arg>)
    decreases |format|
  {
    if format == "" then args == []
    else if format[0] == '\0' then false
    else if format[0] != '%' then Matches(format[1..], args)
    else if |format| == 1 || format[1] == '\0' then false
    else if TakesArg(format[1]) then args != [] && Suits(format[1], args[0]) && Matches(format[2..], args[1..])
    else Matches(format[2..], args)
  }

  function RenderArg(a: Arg): string {
    match a
    case CharArg(c) => [c]
    case IntArg(i) => RenderInt(i)
    case LongArg(l) => RenderLong(l)
    case StrArg(s) => if s.Some? then s.value else ""
  }

  /** The rendered pieces of a format, one after the other. */
  function Expand(format: string, args: seq<Arg>): string
    requires Matches(format, args)
    decreases |format|
  {
    if format == "" then ""
    else if format[0] != '%' then [format[0]] + Expand(format[1..], args)
    else if TakesArg(format[1]) then RenderArg(args[0]) + Expand(format[2..], args[1..])
    else [format[1]] + Expand(format[2..], args)
  }

  lemma Regroup(s: string, t: string, u: string)
    ensures s + (t + u) == (s + t) + u
  {
  }

  /** Formats compose: text and arguments of one format followed by those of another. */
  lemma {:induction false} ExpandConcat(f: string, a: seq<Arg>, g: string, b: seq<Arg>)
    requires Matches(f, a) && Matches(g, b)
    ensures Matches(f + g, a + b) && Expand(f + g, a + b) == Expand(f, a) + Expand(g, b)
    decreases |f|
  {
    hide RenderArg, Suits, TakesArg;
    if f == "" {
      assert f + g == g && a + b == b;
    } else if f[0] != '%' {
      assert (f + g)[1..] == f[1..] + g;
      ExpandConcat(f[1..], a, g, b);
      Regroup([f[0]], Expand(f[1..], a), Expand(g, b));
    } else if TakesArg(f[1]) {
      assert (f + g)[2..] == f[2..] + g && (f + g)[1] == f[1] && (a + b)[1..] == a[1..] + b;
      ExpandConcat(f[2..], a[1..], g, b);
      Regroup(RenderArg(a[0]), Expand(f[2..], a[1..]), Expand(g, b));
    } else {
      assert (f + g)[2..] == f[2..] + g && (f + g)[1] == f[1];
      ExpandConcat(f[2..], a, g, b);
      Regroup([f[1]], Expand(f[2..], a), Expand(g, b));
    }
  }

  // ---- The text of each conversion ----

  /** A format of one conversion. */
  lemma OneConversion(c: char, a: Arg)
    requires TakesArg(c) && Suits(c, a)
    ensures Matches(['%', c], [a]) && Expand(['%', c], [a]) == RenderArg(a)
  {
    hide RenderArg, TakesArg, Suits;
    var f := ['%', c];
    assert f[2..] == "" && [a][1..] == [];
    assert c != '\0' by {
      TakesNoNul(c);
    }
    assert Matches("", []) && Expand("", []) == "";
  }

  lemma TakesNoNul(c: char)
    requires TakesArg(c)
    ensures c != '\0'
  {
  }

  /** What %d writes reads back as the argument if and only if that is not INT_MIN, and it has
      no leading zeros; %x writes long arguments likewise. */
  lemma IntText(n: Int)
    ensures Matches("%d", [IntArg(n)])
    ensures ParseInt(Expand("%d", [IntArg(n)])) == Some(n) <==> n != INT_MIN
    ensures n > 0 ==> Expand("%d", [IntArg(n)])[..1] != "0"
    ensures n < 0 ==> Expand("%d", [IntArg(n)])[..2] != "-0"
  {
    OneConversion('d', IntArg(n));
    hide Expand, Matches, ParseInt, RenderInt;
    IntRoundTrip(n);
    IntLead(n);
  }

  lemma IntLead(n: Int)
    ensures n > 0 ==> RenderInt(n) != "" && RenderInt(n)[..1] != "0"
    ensures n < 0 ==> |RenderInt(n)| >= 2 && RenderInt(n)[..2] != "-0"
  {
    hide Digits;
    if n != 0 {
      var d := Digits(if n < 0 then NegInt(n) else n, 10);
      LeadingNonzero(if n < 0 then NegInt(n) else n, 10);
      if n > 0 {
        assert RenderInt(n)[0] == d[0] != "0"[0];
      } else {
        assert RenderInt(n)[1] == d[0] != "-0"[1];
      }
    }
  }

  lemma LongText(n: Long)
    ensures Matches("%x", [LongArg(n)])
    ensures ParseLong(Expand("%x", [LongArg(n)])) == Some(n) <==> n != LONG_MIN
    ensures n > 0 ==> Expand("%x", [LongArg(n)])[..3] != "0x0"
    ensures n < 0 ==> Expand("%x", [LongArg(n)])[..4] != "-0x0"
  {
    OneConversion('x', LongArg(n));
    hide Expand, Matches, ParseLong, RenderLong;
    LongRoundTrip(n);
    LongLead(n);
  }

  lemma LongLead(n: Long)
    ensures n > 0 ==> RenderLong(n)[..3] != "0x0"
    ensures n < 0 ==> RenderLong(n)[..4] != "-0x0"
  {
    hide Digits;
    if n != 0 {
      var d := Digits(if n < 0 then NegLong(n) else n, 16);
      LeadingNonzero(if n < 0 then NegLong(n) else n, 16);
      if n > 0 {
        assert RenderLong(n) == "0x" + d;
        assert RenderLong(n)[2] == d[0] != "0x0"[2];
      } else {
        assert RenderLong(n) == "-0x" + d;
        assert RenderLong(n)[3] == d[0] != "-0x0"[3];
      }
    }
  }

  /** What %u writes for an unsigned argument reads back as it if and only if it is below 2^31. */
  lemma UnsignedText(u: int)
    requires 0 <= u < 0x1_0000_0000
    ensures var i: Int := if u < 0x8000_0000 then u else u - 0x1_0000_0000;
            && Matches("%u", [IntArg(i)])
            && (ParseInt(Expand("%u", [IntArg(i)])) == Some(u) <==> u < 0x8000_0000)
  {
    var i: Int := if u < 0x8000_0000 then u else u - 0x1_0000_0000;
    OneConversion('u', IntArg(i));
    hide Expand, Matches, ParseInt, Digits;
    UnsignedExact(u);
  }

  /** %c writes the character, %s the string, and nothing for the null pointer. */
  lemma TextText(c: char, s: string)
    requires '\0' !in s
    ensures Matches("%c", [CharArg(c)]) && Expand("%c", [CharArg(c)]) == [c]
    ensures Matches("%s", [StrArg(Some(s))]) && Expand("%s", [StrArg(Some(s))]) == s
    ensures Matches("%s", [StrArg(None)]) && Expand("%s", [StrArg(None)]) == ""
  {
    OneConversion('c', CharArg(c));
    OneConversion('s', StrArg(Some(s)));
    OneConversion('s', StrArg(None));
  }

  /** A format without '%' is its own text. */
  lemma {:induction false} PlainText(f: string)
    requires '%' !in f && '\0' !in f
    ensures Matches(f, []) && Expand(f, []) == f
  {
    if f == "" {
    } else {
      PlainText(f[1..]);
    }
  }

  /** Behind a '%' any other character stands for itself: "%%" is "%". */
  lemma EscapedText(c: char)
    requires c !in {'c', 'd', 'u', 'x', 's', '\0'}
    ensures Matches(['%', c], []) && Expand(['%', c], []) == [c]
  {
    var f := ['%', c];
    assert f[2..] == "";
    assert Matches("", []) && Expand("", []) == "";
  }

  lemma {:induction false} LeadingNonzero(n: int, base: int)
    requires Base(base) && n != 0
    ensures Digits(n, base) != "" && Digits(n, base)[0] != '0'
    decreases if n < 0 then -n else n
  {
    var q := Quot(n, base);
    DigitsNonempty(n, base);
    if q == 0 {
      assert Digits(n, base) == [DigitChar(Rem(n, base))];
      RemOf(n, base);
    } else {
      hide Digits, DigitChar;
      QuotSmaller(n, base);
      LeadingNonzero(q, base);
      assert Digits(n, base)[0] == Digits(q, base)[0];
    }
  }

  lemma RemOf(n: int, base: int)
    requires Base(base) && n != 0 && Quot(n, base) == 0
    ensures Rem(n, base) == n && DigitChar(Rem(n, base)) != '0'
  {
  }

  lemma QuotSmaller(n: int, base: int)
    requires Base(base) && n != 0
    ensures var q := Quot(n, base); (if q < 0 then -q else q) < (if n < 0 then -n else n)
  {
  }

  /** Appends the digits of `num` to the buffer, through the array they are collected in
      from the last one on. */
  method PutDigits(buf: array<char>, out: nat, num: int, base: int) returns (next: nat)
    requires Base(base) && |Digits(num, base)| <= DIGIT_CELLS
    requires out + |Digits(num, base)| <= buf.Length
    modifies buf
    ensures next == out + |Digits(num, base)|
    ensures buf[..next] == old(buf[..out]) + Digits(num, base)
    ensures forall k :: next <= k < buf.Length ==> buf[k] == old(buf[k])
  {
    hide Digits;
    var chars, count := CollectDigits(num, base);
    next := out;
    ghost var text := Digits(num, base);
    while count > 0
      invariant 0 <= count <= |text| && next == out + |text| - count
      invariant buf[..next] == old(buf[..out]) + text[..|text| - count]
      invariant forall k :: next <= k < buf.Length ==> buf[k] == old(buf[k])
      decreases count
      modifies buf
    {
      count := count - 1;
      next := Put(buf, next, chars[count]);
    }
  }

  /** The digits, last one first. */
  method CollectDigits(num: int, base: int) returns (chars: array<char>, count: nat)
    requires Base(base) && |Digits(num, base)| <= DIGIT_CELLS
    ensures fresh(chars) && chars.Length == DIGIT_CELLS && count == |Digits(num, base)|
    ensures forall k :: 0 <= k < count ==> chars[k] == Digits(num, base)[count - 1 - k]
  {
    hide DigitChar;
    ghost var text := Digits(num, base);
    chars := new char[DIGIT_CELLS](_ => ' ');
    var tmp := num;
    count := 0;
    while tmp != 0
      invariant 0 <= count <= |text|
      invariant Digits(tmp, base) == text[..|text| - count]
      invariant forall k :: 0 <= k < count ==> chars[k] == text[|text| - 1 - k]
      decreases if tmp < 0 then -tmp else tmp
      modifies chars
    {
      DigitsNonempty(tmp, base);
      chars[count] := DigitChar(Rem(tmp, base));
      count := count + 1;
      tmp := Quot(tmp, base);
    }
  }

  lemma DigitsNonempty(n: int, base: int)
    requires Base(base) && n != 0
    ensures var s := Digits(n, base);
            s != "" && s[|s| - 1] == DigitChar(Rem(n, base)) && s[..|s| - 1] == Digits(Quot(n, base), base)
  {
  }

  method Put(buf: array<char>, out: nat, c: char) returns (next: nat)
    requires out < buf.Length
    modifies buf
    ensures next == out + 1 && buf[..next] == old(buf[..out]) + [c]
    ensures forall k :: next <= k < buf.Length ==> buf[k] == old(buf[k])
  {
    buf[out] := c;
    next := out + 1;
  }

  method PutInt(buf: array<char>, out: nat, n: Int) returns (next: nat)
    requires out + |RenderInt(n)| <= buf.Length
    modifies buf
    ensures next == out + |RenderInt(n)|
    ensures buf[..next] == old(buf[..out]) + RenderInt(n)
    ensures forall k :: next <= k < buf.Length ==> buf[k] == old(buf[k])
  {
    hide Digits;
    DigitsFit(n);
    DigitsFit(NegInt(n));
    next := out;
    if n == 0 {
      next := Put(buf, next, '0');
      return;
    }
    var num := n;
    if num < 0 {
      next := Put(buf, next, '-');
      num := NegInt(num);
    }
    next := PutDigits(buf, next, num, 10);
  }

  method PutLong(buf: array<char>, out: nat, n: Long) returns (next: nat)
    requires out + |RenderLong(n)| <= buf.Length
    modifies buf
    ensures next == out + |RenderLong(n)|
    ensures buf[..next] == old(buf[..out]) + RenderLong(n)
    ensures forall k :: next <= k < buf.Length ==> buf[k] == old(buf[k])
  {
    hide Digits;
    DigitsFit(n);
    DigitsFit(NegLong(n));
    next := out;
    var num := n;
    if num < 0 {
      next := Put(buf, next, '-');
      num := NegLong(num);
    }
    next := Put(buf, next, '0');
    next := Put(buf, next, 'x');
    if num == 0 {
      next := Put(buf, next, '0');
      return;
    }
    next := PutDigits(buf, next, num, 16);
  }

  method PutString(buf: array<char>, out: nat, s: string) returns (next: nat)
    requires out + |s| <= buf.Length
    modifies buf
    ensures next == out + |s|
    ensures buf[..next] == old(buf[..out]) + s
    ensures forall k :: next <= k < buf.Length ==> buf[k] == old(buf[k])
  {
    next := out;
    var i := 0;
    while i < |s|
      invariant 0 <= i <= |s| && next == out + i
      invariant buf[..next] == old(buf[..out]) + s[..i]
      invariant forall k :: next <= k < buf.Length ==> buf[k] == old(buf[k])
    {
      next := Put(buf, next, s[i]);
      i := i + 1;
    }
  }

  method PutArg(buf: array<char>, out: nat, a: Arg) returns (next: nat)
    requires out + |RenderArg(a)| <= buf.Length
    modifies buf
    ensures next == out + |RenderArg(a)|
    ensures buf[..next] == old(buf[..out]) + RenderArg(a)
    ensures forall k :: next <= k < buf.Length ==> buf[k] == old(buf[k])
  {
    match a {
      case CharArg(c) => next := Put(buf, out, c);
      case IntArg(i) => next := PutInt(buf, out, i);
      case LongArg(l) => next := PutLong(buf, out, l);
      case StrArg(s) =>
        if s.Some? {
          next := PutString(buf, out, s.value);
        } else {
          next := out;
        }
    }
  }

  lemma FormatStep(f: string, a: seq<Arg>)
    requires Matches(f, a) && f != ""
    ensures f[0] != '%' ==> Matches(f[1..], a) && Expand(f, a) == [f[0]] + Expand(f[1..], a)
    ensures f[0] == '%' ==> |f| > 1
    ensures f[0] == '%' && TakesArg(f[1]) ==>
              a != [] && Matches(f[2..], a[1..]) && Expand(f, a) == RenderArg(a[0]) + Expand(f[2..], a[1..])
    ensures f[0] == '%' && !TakesArg(f[1]) ==> Matches(f[2..], a) && Expand(f, a) == [f[1]] + Expand(f[2..], a)
  {
  }

  /** Writes exactly the expanded format to the front of the buffer and returns its length. */
  method Vuprintf(buf: array<char>, format: string, args: seq<Arg>) returns (out: nat)
    requires Matches(format, args) && |Expand(format, args)| <= buf.Length
    modifies buf
    ensures out == |Expand(format, args)|
    ensures buf[..out] == Expand(format, args)
    ensures forall k :: out <= k < buf.Length ==> buf[k] == old(buf[k])
  {
    hide Matches, Expand, RenderArg, TakesArg;
    out := 0;
    var count, used := 0, 0;
    while count < |format|
      invariant 0 <= count <= |format| && 0 <= used <= |args|
      invariant Matches(format[count..], args[used..])
      invariant out <= buf.Length
      invariant buf[..out] + Expand(format[count..], args[used..]) == Expand(format, args)
      invariant forall k :: out <= k < buf.Length ==> buf[k] == old(buf[k])
    {
      ghost var f, a := format[count..], args[used..];
      FormatStep(f, a);
      var ch := format[count];
      count := count + 1;
      assert f[1..] == format[count..];
      if ch != '%' {
        out := Put(buf, out, ch);
      } else {
        ch := format[count];
        count := count + 1;
        assert f[2..] == format[count..];
        if TakesArg(ch) {
          assert a[1..] == args[used + 1..];
          out := PutArg(buf, out, args[used]);
          used := used + 1;
        } else {
          out := Put(buf, out, ch);
        }
      }
    }
    ExpandEnd(format[count..], args[used..]);
  }

  lemma ExpandEnd(f: string, a: seq<Arg>)
    requires Matches(f, a) && f == ""
    ensures a == [] && Expand(f, a) == ""
  {
  }
}
