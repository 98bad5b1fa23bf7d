/**
 * The chart's cell parser, `toNum`: a raw CSV cell becomes either `null` or a
 * finite number. Blank and missing cells are `null`; otherwise every comma and
 * every whitespace character is deleted and what remains goes through
 * JavaScript's `Number(string)`.
 *
 * Cells are modelled over the characters the migration tables spell numbers
 * with: decimal digits, a sign, thousands commas and whitespace.
 */
module Cells {
  import opened Wrappers
  import opened JsNumbers

  /** A cell as the CSV loader hands it over: an absent column (`undefined` or `null`) or its text. */
  datatype Cell = Missing | Text(s: string)

  /**
   * JavaScript's white space as `String.prototype.trim` and the regular
   * expression class `\s` both understand it: WhiteSpace and LineTerminator.
   */
  predicate IsWhiteSpace(c: char)
    ensures IsWhiteSpace(c) <==> c in JsWhiteSpace || c in JsLineTerminator
  {
    c == '\t' || c == '\n' || c == '\U{B}' || c == '\U{C}' || c == '\r' || c == ' '
    || c == '\U{A0}' || c == '\U{1680}' || ('\U{2000}' <= c <= '\U{200A}')
    || c == '\U{2028}' || c == '\U{2029}' || c == '\U{202F}' || c == '\U{205F}'
    || c == '\U{3000}' || c == '\U{FEFF}'
  }

  /**
   * ECMAScript's WhiteSpace: TAB, VT, FF, ZWNBSP and the space separators
   * (category Zs) SP, NBSP, OGHAM SPACE MARK, EN QUAD through HAIR SPACE,
   * NARROW NBSP, MEDIUM MATHEMATICAL SPACE and IDEOGRAPHIC SPACE.
   */
  const JsWhiteSpace: set<char> := {
    '\t', '\U{B}', '\U{C}', '\U{FEFF}',
    ' ', '\U{A0}', '\U{1680}',
    '\U{2000}', '\U{2001}', '\U{2002}', '\U{2003}', '\U{2004}', '\U{2005}',
    '\U{2006}', '\U{2007}', '\U{2008}', '\U{2009}', '\U{200A}',
    '\U{202F}', '\U{205F}', '\U{3000}'
  }

  /** ECMAScript's LineTerminator: LF, CR, LINE SEPARATOR and PARAGRAPH SEPARATOR. */
  const JsLineTerminator: set<char> := {'\n', '\r', '\U{2028}', '\U{2029}'}

  predicate IsComma(c: char) {
    c == ','
  }

  predicate IsDigit(c: char) {
    '0' as int <= c as int <= '9' as int
  }

  /** The characters a cell of this model may hold. */
  predicate IsCellChar(c: char) {
    IsDigit(c) || c == '+' || c == '-' || IsComma(c) || IsWhiteSpace(c)
  }

  predicate InAlphabet(s: string) {
    forall i :: 0 <= i < |s| ==> IsCellChar(s[i])
  }

  /** The cells this model covers: missing ones and texts over the alphabet above. */
  predicate Modelled(v: Cell) {
    v.Text? ==> InAlphabet(v.s)
  }

  predicate IsBlank(s: string) {
    forall i :: 0 <= i < |s| ==> IsWhiteSpace(s[i])
  }

  predicate IsDigits(s: string) {
    forall i :: 0 <= i < |s| ==> IsDigit(s[i])
  }

  // ---------------------------------------------------------------------------
  // String operations

  function TrimStart(s: string): string {
    if s != [] && IsWhiteSpace(s[0]) then TrimStart(s[1..]) else s
  }

  function TrimEnd(s: string): string {
    if s != [] && IsWhiteSpace(s[|s| - 1]) then TrimEnd(s[..|s| - 1]) else s
  }

  /** `String.prototype.trim`: the result neither starts nor ends with white space. */
  function Trim(s: string): (r: string)
    ensures |r| <= |s|
    ensures r != [] ==> !IsWhiteSpace(r[0]) && !IsWhiteSpace(r[|r| - 1])
  {
    TrimStartIsSuffix(s);
    TrimEndIsPrefix(TrimStart(s));
    TrimEnd(TrimStart(s))
  }

  /** `TrimStart` drops a blank prefix and stops at the first character that is not white space. */
  lemma {:induction false} TrimStartIsSuffix(s: string)
    ensures |TrimStart(s)| <= |s| && TrimStart(s) == s[|s| - |TrimStart(s)|..]
    ensures IsBlank(s[..|s| - |TrimStart(s)|])
    ensures TrimStart(s) != [] ==> !IsWhiteSpace(TrimStart(s)[0])
  {
    if s != [] && IsWhiteSpace(s[0]) {
      var r := TrimStart(s[1..]);
      TrimStartIsSuffix(s[1..]);
      assert s[..|s| - |r|] == [s[0]] + s[1..][..|s| - 1 - |r|];
    }
  }

  /** `TrimEnd` drops a blank suffix and stops at the last character that is not white space. */
  lemma {:induction false} TrimEndIsPrefix(s: string)
    ensures |TrimEnd(s)| <= |s| && TrimEnd(s) == s[..|TrimEnd(s)|]
    ensures IsBlank(s[|TrimEnd(s)|..])
    ensures TrimEnd(s) != [] ==> !IsWhiteSpace(TrimEnd(s)[|TrimEnd(s)| - 1])
  {
    if s != [] && IsWhiteSpace(s[|s| - 1]) {
      var r := TrimEnd(s[..|s| - 1]);
      TrimEndIsPrefix(s[..|s| - 1]);
      assert s[|r|..] == s[..|s| - 1][|r|..] + [s[|s| - 1]];
    }
  }

  /** `trim()` removes a blank prefix and a blank suffix and nothing else. */
  lemma TrimIsInfix(s: string)
    ensures exists i ::
      0 <= i <= |s| - |Trim(s)| && Trim(s) == s[i..i + |Trim(s)|] && IsBlank(s[..i]) && IsBlank(s[i + |Trim(s)|..])
  {
    var t := TrimStart(s);
    var r := Trim(s);
    TrimStartIsSuffix(s);
    TrimEndIsPrefix(t);
    var i := |s| - |t|;
    assert t[|r|..] == s[i + |r|..];
    assert r == s[i..i + |r|];
  }

  /** `s.replace(/x/g, "")` for the characters `x` that `unwanted` picks out. */
  function Delete(s: string, unwanted: char -> bool): (r: string)
    ensures |r| <= |s|
    ensures forall i :: 0 <= i < |r| ==> !unwanted(r[i])
  {
    if s == [] then []
    else (if unwanted(s[0]) then [] else [s[0]]) + Delete(s[1..], unwanted)
  }

  // ---------------------------------------------------------------------------
  // Number(string)

  function DigitValue(c: char): nat
    requires IsDigit(c)
  {
    c as int - '0' as int
  }

  /** The value of a string of decimal digits, read most significant first. */
  function DigitsValue(s: string): nat
    requires IsDigits(s)
  {
    if s == [] then 0 else DigitsValue(s[..|s| - 1]) * 10 + DigitValue(s[|s| - 1])
  }

  /** `Number(t)` once `t` is trimmed: empty is 0, a signed or unsigned digit string its value, the rest NaN. */
  function NumericLiteral(t: string): (r: JsNumber)
    requires InAlphabet(t)
    ensures r.NaN? <==> t != [] && !IsDigits(t) && !(|t| > 1 && (t[0] == '-' || t[0] == '+') && IsDigits(t[1..]))
    ensures t == [] ==> r == Finite(0)
    ensures t != [] && IsDigits(t) ==> r == Rounded(DigitsValue(t))
  {
    if t == [] then Finite(0)
    else if t[0] == '-' || t[0] == '+' then
      if |t| > 1 && IsDigits(t[1..]) then
        var magnitude: int := DigitsValue(t[1..]);
        Rounded(if t[0] == '-' then -magnitude else magnitude)
      else NaN
    else if IsDigits(t) then Rounded(DigitsValue(t))
    else NaN
  }

  /** A `+` sign leaves a digit string's value alone and a `-` sign negates it. */
  lemma SignedLiteral(d: string)
    requires IsDigits(d) && d != []
    ensures InAlphabet("+" + d) && InAlphabet("-" + d)
    ensures NumericLiteral("+" + d) == NumericLiteral(d)
    ensures NumericLiteral("-" + d) == Negate(NumericLiteral(d))
  {
    assert ("+" + d)[1..] == d && ("-" + d)[1..] == d;
    RoundedOfNegation(DigitsValue(d));
  }

  lemma TrimStartInAlphabet(s: string)
    requires InAlphabet(s)
    ensures InAlphabet(TrimStart(s)) && |TrimStart(s)| <= |s|
  {
  }

  lemma TrimEndInAlphabet(s: string)
    requires InAlphabet(s)
    ensures InAlphabet(TrimEnd(s)) && |TrimEnd(s)| <= |s|
  {
  }

  /** JavaScript's `Number(t)` for a string over the cell alphabet. */
  function StringToNumber(t: string): (r: JsNumber)
    requires InAlphabet(t)
    ensures IsDigits(t) && t != [] ==> r == Rounded(DigitsValue(t))
  {
    TrimStartInAlphabet(t);
    TrimEndInAlphabet(TrimStart(t));
    NumericLiteral(Trim(t))
  }

  // ---------------------------------------------------------------------------
  // toNum

  /** What remains of a cell's text once every comma and then every whitespace character is deleted. */
  function Stripped(s: string): (r: string)
    ensures |r| <= |s|
    ensures forall i :: 0 <= i < |r| ==> !IsComma(r[i]) && !IsWhiteSpace(r[i])
  {
    var c := Delete(s, IsComma);
    var r := Delete(c, IsWhiteSpace);
    DeleteKeeps(c, IsWhiteSpace, x => !IsComma(x));
    r
  }

  predicate IsSeparator(c: char) {
    IsComma(c) || IsWhiteSpace(c)
  }

  /**
   * The two `replace` calls together delete exactly the commas and the white
   * space, each other character kept in order: one pass would do the same.
   */
  lemma {:induction false} StrippedIsOnePass(s: string)
    ensures Stripped(s) == Delete(s, IsSeparator)
  {
    if s != [] {
      var head := if IsComma(s[0]) then [] else [s[0]];
      calc {
        Stripped(s);
        Delete(head + Delete(s[1..], IsComma), IsWhiteSpace);
        { DeleteAppend(head, Delete(s[1..], IsComma), IsWhiteSpace); }
        Delete(head, IsWhiteSpace) + Stripped(s[1..]);
        { StrippedIsOnePass(s[1..]); }
        Delete(head, IsWhiteSpace) + Delete(s[1..], IsSeparator);
        { if IsComma(s[0]) { DeleteAll(head, IsWhiteSpace); } else { SingleDeletion(s[0]); } }
        Delete(s, IsSeparator);
      }
    }
  }

  lemma SingleDeletion(c: char)
    requires !IsComma(c)
    ensures Delete([c], IsWhiteSpace) == Delete([c], IsSeparator)
  {
    assert [c][1..] == [];
  }

  lemma StrippedAppend(a: string, b: string)
    ensures Stripped(a + b) == Stripped(a) + Stripped(b)
  {
    DeleteAppend(a, b, IsComma);
    DeleteAppend(Delete(a, IsComma), Delete(b, IsComma), IsWhiteSpace);
  }

  lemma StrippedOfBlank(b: string)
    requires IsBlank(b)
    ensures Stripped(b) == []
  {
    DeleteNone(b, IsComma);
    DeleteAll(b, IsWhiteSpace);
  }

  /** Trimming first changes nothing once the white space is deleted anyway. */
  lemma StrippedOfTrim(s: string)
    ensures Stripped(Trim(s)) == Stripped(s)
  {
    var t := TrimStart(s);
    var r := TrimEnd(t);
    TrimStartIsSuffix(s);
    TrimEndIsPrefix(t);
    assert s == s[..|s| - |t|] + t;
    StrippedAppend(s[..|s| - |t|], t);
    StrippedOfBlank(s[..|s| - |t|]);
    assert t == r + t[|r|..];
    StrippedAppend(r, t[|r|..]);
    StrippedOfBlank(t[|r|..]);
    assert Stripped(s) == Stripped(t) by { assert [] + Stripped(t) == Stripped(t); }
    assert Stripped(t) == Stripped(r) by { assert Stripped(r) + [] == Stripped(r); }
  }

  lemma TrimInAlphabet(s: string)
    requires InAlphabet(s)
    ensures InAlphabet(Trim(s))
  {
    TrimStartInAlphabet(s);
    TrimEndInAlphabet(TrimStart(s));
  }

  lemma StrippedInAlphabet(s: string)
    requires InAlphabet(s)
    ensures InAlphabet(Stripped(s))
  {
    DeleteKeeps(s, IsComma, IsCellChar);
    DeleteKeeps(Delete(s, IsComma), IsWhiteSpace, IsCellChar);
  }

  /**
   * `toNum`: `null` for a missing or blank cell; otherwise the stripped text
   * through `Number`, kept only when finite.
   */
  function ToNum(v: Cell): (r: Option<int>)
    requires Modelled(v)
    ensures v.Missing? ==> r == None
    ensures v.Text? && IsBlank(v.s) ==> r == None
    ensures r.Some? ==> -OverflowThreshold < r.value < OverflowThreshold
  {
    match v
    case Missing => None
    case Text(s) =>
      TrimIsEmptyIffBlank(s);
      var t := Trim(s);
      if t == [] then None
      else
        TrimInAlphabet(s);
        StrippedInAlphabet(t);
        var n := StringToNumber(Stripped(t));
        if IsFinite(n) then Some(n.n) else None
  }

  // ---------------------------------------------------------------------------
  // Properties of toNum

  lemma {:induction false} TrimStartKeepsNonBlank(s: string)
    ensures TrimStart(s) == [] <==> IsBlank(s)
    ensures TrimStart(s) != [] ==> !IsWhiteSpace(TrimStart(s)[0])
  {
    if s != [] && IsWhiteSpace(s[0]) {
      TrimStartKeepsNonBlank(s[1..]);
      assert IsBlank(s) <==> IsBlank(s[1..]) by {
        if IsBlank(s[1..]) {
          forall i | 0 <= i < |s| ensures IsWhiteSpace(s[i]) {
            if i > 0 { assert s[i] == s[1..][i - 1]; }
          }
        }
      }
    }
  }

  lemma {:induction false} TrimEndKeepsNonEmpty(s: string)
    requires s != [] ==> !IsWhiteSpace(s[0])
    ensures TrimEnd(s) == [] <==> s == []
  {
    if s != [] && IsWhiteSpace(s[|s| - 1]) {
      assert |s| > 1;
      TrimEndKeepsNonEmpty(s[..|s| - 1]);
    }
  }

  /** `String(v).trim() === ""` holds exactly for the blank cells. */
  lemma TrimIsEmptyIffBlank(s: string)
    ensures Trim(s) == [] <==> IsBlank(s)
  {
    TrimStartKeepsNonBlank(s);
    TrimEndKeepsNonEmpty(TrimStart(s));
  }

  lemma {:induction false} DeleteAppend(a: string, b: string, unwanted: char -> bool)
    ensures Delete(a + b, unwanted) == Delete(a, unwanted) + Delete(b, unwanted)
  {
    if a != [] {
      var head := if unwanted(a[0]) then [] else [a[0]];
      calc {
        Delete(a + b, unwanted);
        { assert (a + b)[0] == a[0] && (a + b)[1..] == a[1..] + b; }
        head + Delete(a[1..] + b, unwanted);
        { DeleteAppend(a[1..], b, unwanted); }
        head + (Delete(a[1..], unwanted) + Delete(b, unwanted));
      }
    } else {
      assert a + b == b;
    }
  }

  /** Whatever holds of every character of `s` holds of every character `Delete` keeps. */
  lemma {:induction false} DeleteKeeps(s: string, unwanted: char -> bool, property: char -> bool)
    requires forall i :: 0 <= i < |s| ==> property(s[i])
    ensures forall i :: 0 <= i < |Delete(s, unwanted)| ==> property(Delete(s, unwanted)[i])
  {
    if s != [] {
      DeleteKeeps(s[1..], unwanted, property);
    }
  }

  lemma {:induction false} DeleteAll(s: string, unwanted: char -> bool)
    requires forall i :: 0 <= i < |s| ==> unwanted(s[i])
    ensures Delete(s, unwanted) == []
  {
    if s != [] {
      DeleteAll(s[1..], unwanted);
    }
  }

  lemma {:induction false} DeleteNone(s: string, unwanted: char -> bool)
    requires forall i :: 0 <= i < |s| ==> !unwanted(s[i])
    ensures Delete(s, unwanted) == s
  {
    if s != [] {
      DeleteNone(s[1..], unwanted);
    }
  }

  lemma InsertionKeepsNonBlank(s: string, i: nat, c: char)
    requires i <= |s| && !IsBlank(s)
    ensures !IsBlank(s[..i] + [c] + s[i..])
  {
    var k :| 0 <= k < |s| && !IsWhiteSpace(s[k]);
    var t := s[..i] + [c] + s[i..];
    if k < i { assert t[k] == s[k]; } else { assert t[k + 1] == s[k]; }
  }

  /** Two non-blank cells that strip to the same text parse alike. */
  lemma ToNumOfStripped(s: string, t: string)
    requires InAlphabet(s) && InAlphabet(t) && !IsBlank(s) && !IsBlank(t)
    requires Stripped(s) == Stripped(t)
    ensures ToNum(Text(s)) == ToNum(Text(t))
  {
    TrimIsEmptyIffBlank(s);
    TrimIsEmptyIffBlank(t);
    StrippedOfTrim(s);
    StrippedOfTrim(t);
  }

  lemma StrippedIgnoresComma(a: string, b: string)
    ensures Stripped(a + [','] + b) == Stripped(a + b)
  {
    var p, q := Delete(a, IsComma), Delete(b, IsComma);
    DeleteAll([','], IsComma);
    calc {
      Delete(a + [','] + b, IsComma);
      { DeleteAppend(a + [','], b, IsComma); }
      Delete(a + [','], IsComma) + q;
      { DeleteAppend(a, [','], IsComma); }
      p + [] + q;
      { assert p + [] == p; }
      p + q;
      { DeleteAppend(a, b, IsComma); }
      Delete(a + b, IsComma);
    }
  }

  lemma StrippedIgnoresWhiteSpace(a: string, b: string, c: char)
    requires IsWhiteSpace(c)
    ensures Stripped(a + [c] + b) == Stripped(a + b)
  {
    var p, q := Delete(a, IsComma), Delete(b, IsComma);
    DeleteNone([c], IsComma);
    DeleteAll([c], IsWhiteSpace);
    calc {
      Delete(a + [c] + b, IsComma);
      { DeleteAppend(a + [c], b, IsComma); }
      Delete(a + [c], IsComma) + q;
      { DeleteAppend(a, [c], IsComma); }
      p + [c] + q;
    }
    calc {
      Delete(p + [c] + q, IsWhiteSpace);
      { DeleteAppend(p + [c], q, IsWhiteSpace); }
      Delete(p + [c], IsWhiteSpace) + Delete(q, IsWhiteSpace);
      { DeleteAppend(p, [c], IsWhiteSpace); }
      Delete(p, IsWhiteSpace) + [] + Delete(q, IsWhiteSpace);
      { assert Delete(p, IsWhiteSpace) + [] == Delete(p, IsWhiteSpace); }
      Delete(p, IsWhiteSpace) + Delete(q, IsWhiteSpace);
      { DeleteAppend(p, q, IsWhiteSpace); }
      Delete(p + q, IsWhiteSpace);
      { DeleteAppend(a, b, IsComma); }
      Delete(Delete(a + b, IsComma), IsWhiteSpace);
    }
  }

  /**
   * Thousands separators and stray spaces do not matter: inserting a comma or
   * a whitespace character anywhere in a non-blank cell leaves its value alone.
   */
  lemma ToNumIgnoresSeparator(s: string, i: nat, c: char)
    requires InAlphabet(s) && !IsBlank(s) && i <= |s|
    requires IsComma(c) || IsWhiteSpace(c)
    ensures InAlphabet(s[..i] + [c] + s[i..])
    ensures ToNum(Text(s[..i] + [c] + s[i..])) == ToNum(Text(s))
  {
    var t := s[..i] + [c] + s[i..];
    assert s == s[..i] + s[i..];
    assert InAlphabet(t) by {
      forall k | 0 <= k < |t| ensures IsCellChar(t[k]) {
        if k < i { assert t[k] == s[k]; } else if k > i { assert t[k] == s[k - 1]; }
      }
    }
    InsertionKeepsNonBlank(s, i, c);
    if IsComma(c) {
      StrippedIgnoresComma(s[..i], s[i..]);
    } else {
      StrippedIgnoresWhiteSpace(s[..i], s[i..], c);
    }
    ToNumOfStripped(t, s);
  }

  /** A cell of commas and spaces that is not blank strips to "" and `Number("")` is 0. */
  lemma SeparatorsOnlyIsZero(s: string)
    requires !IsBlank(s)
    requires forall i :: 0 <= i < |s| ==> IsComma(s[i]) || IsWhiteSpace(s[i])
    ensures InAlphabet(s)
    ensures ToNum(Text(s)) == Some(0)
  {
    TrimIsEmptyIffBlank(s);
    StrippedOfTrim(s);
    var d := Delete(s, IsComma);
    DeleteKeeps(s, IsComma, c => IsComma(c) || IsWhiteSpace(c));
    DeleteAll(d, IsWhiteSpace);
  }

  // ---------------------------------------------------------------------------
  // The thousands-separated spelling the tables use, and its round trip

  function DigitChar(d: nat): (c: char)
    requires d < 10
    ensures IsDigit(c) && DigitValue(c) == d
  {
    ('0' as int + d) as char
  }

  /** The decimal spelling of a natural number, without leading zeros. */
  function Decimal(n: nat): string {
    if n < 10 then [DigitChar(n)] else Decimal(n / 10) + [DigitChar(n % 10)]
  }

  function ThreeDigits(m: nat): string
    requires m < 1000
  {
    [DigitChar(m / 100), DigitChar(m / 10 % 10), DigitChar(m % 10)]
  }

  /** A natural number with a comma between every group of three digits: "35,000". */
  function GroupedNat(n: nat): string {
    if n < 1000 then Decimal(n) else GroupedNat(n / 1000) + "," + ThreeDigits(n % 1000)
  }

  /** An integer spelled with thousands separators and a leading minus sign when negative. */
  function Grouped(n: int): string {
    if n < 0 then "-" + GroupedNat(-n) else GroupedNat(n)
  }

  lemma DigitsValueSnoc(s: string, c: char)
    requires IsDigits(s) && IsDigit(c)
    ensures IsDigits(s + [c]) && DigitsValue(s + [c]) == DigitsValue(s) * 10 + DigitValue(c)
  {
    assert (s + [c])[..|s|] == s;
  }

  lemma {:induction false} DecimalValue(n: nat)
    ensures Decimal(n) != [] && IsDigits(Decimal(n)) && DigitsValue(Decimal(n)) == n
  {
    if n >= 10 {
      DecimalValue(n / 10);
      DigitsValueSnoc(Decimal(n / 10), DigitChar(n % 10));
    }
  }

  lemma ThreeDigitsValue(s: string, m: nat)
    requires IsDigits(s) && m < 1000
    ensures IsDigits(s + ThreeDigits(m))
    ensures DigitsValue(s + ThreeDigits(m)) == DigitsValue(s) * 1000 + m
  {
    var a, b, c := DigitChar(m / 100), DigitChar(m / 10 % 10), DigitChar(m % 10);
    DigitsValueSnoc(s, a);
    DigitsValueSnoc(s + [a], b);
    DigitsValueSnoc(s + [a] + [b], c);
    assert s + ThreeDigits(m) == s + [a] + [b] + [c];
    ThreeDigitsArithmetic(m);
  }

  lemma ThreeDigitsArithmetic(m: nat)
    requires m < 1000
    ensures (m / 100 * 10 + m / 10 % 10) * 10 + m % 10 == m
  {
    assert m / 10 == m / 100 * 10 + m / 10 % 10;
    assert m == m / 10 * 10 + m % 10;
  }

  /** The characters of a grouped spelling: digits and commas, starting with a digit. */
  lemma {:induction false} GroupedNatChars(n: nat)
    ensures GroupedNat(n) != [] && IsDigit(GroupedNat(n)[0])
    ensures forall i :: 0 <= i < |GroupedNat(n)| ==> IsDigit(GroupedNat(n)[i]) || IsComma(GroupedNat(n)[i])
  {
    DecimalValue(n);
    if n >= 1000 {
      GroupedNatChars(n / 1000);
    }
  }

  /** Deleting the commas of a grouped spelling leaves the digits of the number. */
  lemma {:induction false} GroupedNatDigits(n: nat)
    ensures IsDigits(Delete(GroupedNat(n), IsComma))
    ensures DigitsValue(Delete(GroupedNat(n), IsComma)) == n
  {
    if n < 1000 {
      DecimalValue(n);
      DeleteNone(Decimal(n), IsComma);
    } else {
      GroupedNatDigits(n / 1000);
      var head, tail := GroupedNat(n / 1000), ThreeDigits(n % 1000);
      DeleteAppend(head + ",", tail, IsComma);
      DeleteAppend(head, ",", IsComma);
      DeleteAll(",", IsComma);
      DeleteNone(tail, IsComma);
      assert Delete(GroupedNat(n), IsComma) == Delete(head, IsComma) + tail;
      ThreeDigitsValue(Delete(head, IsComma), n % 1000);
    }
  }

  lemma DigitsAreNotWhiteSpace(s: string)
    requires IsDigits(s)
    ensures Delete(s, IsWhiteSpace) == s
  {
    DeleteNone(s, IsWhiteSpace);
  }

  /** On a non-blank cell `toNum` is `Number` of the stripped text, kept when finite. */
  lemma ToNumOfNonBlank(s: string)
    requires InAlphabet(s) && !IsBlank(s)
    ensures InAlphabet(Stripped(s))
    ensures ToNum(Text(s)) == (var n := StringToNumber(Stripped(s)); if n.Finite? then Some(n.n) else None)
  {
    TrimIsEmptyIffBlank(s);
    StrippedInAlphabet(s);
    StrippedOfTrim(s);
  }

  /** `Number("-" + d)` for a non-empty digit string `d`. */
  lemma NumberOfNegated(d: string)
    requires IsDigits(d) && d != []
    ensures InAlphabet("-" + d)
    ensures StringToNumber("-" + d) == Rounded(-(DigitsValue(d) as int))
  {
    var t := "-" + d;
    assert t[1..] == d && t[0] == '-';
    assert !IsWhiteSpace(t[|t| - 1]) by { assert t[|t| - 1] == d[|d| - 1]; }
    TrimNothing(t);
  }

  /** The grouped spelling of a natural number strips to its digits. */
  lemma StrippedGroupedNat(m: nat)
    ensures Stripped(GroupedNat(m)) == Delete(GroupedNat(m), IsComma)
    ensures IsDigits(Stripped(GroupedNat(m))) && Stripped(GroupedNat(m)) != []
    ensures DigitsValue(Stripped(GroupedNat(m))) == m
    ensures InAlphabet(GroupedNat(m)) && !IsBlank(GroupedNat(m))
  {
    GroupedNatChars(m);
    GroupedNatDigits(m);
    DigitsAreNotWhiteSpace(Delete(GroupedNat(m), IsComma));
    assert !IsWhiteSpace(GroupedNat(m)[0]);
  }

  lemma StrippedNegative(g: string)
    ensures Stripped("-" + g) == "-" + Stripped(g)
  {
    DeleteAppend("-", g, IsComma);
    DeleteNone("-", IsComma);
    DeleteAppend("-", Delete(g, IsComma), IsWhiteSpace);
    DeleteNone("-", IsWhiteSpace);
  }

  /**
   * Parsing a thousands-separated spelling gives the number back, for every
   * integer that a double does not round to an infinity.
   */
  lemma GroupedRoundTrip(n: int)
    requires -OverflowThreshold < n < OverflowThreshold
    ensures InAlphabet(Grouped(n))
    ensures ToNum(Text(Grouped(n))) == Some(n)
  {
    var m: nat := if n < 0 then -n else n;
    StrippedGroupedNat(m);
    var g := GroupedNat(m);
    var d := Stripped(g);
    if n < 0 {
      var s := "-" + g;
      assert s == Grouped(n);
      StrippedNegative(g);
      NumberOfNegated(d);
      assert InAlphabet(s) by {
        forall k | 0 <= k < |s| ensures IsCellChar(s[k]) {
          if k > 0 { assert s[k] == g[k - 1]; }
        }
      }
      assert !IsBlank(s) by { assert !IsWhiteSpace(s[0]); }
      ToNumOfNonBlank(s);
    } else {
      ToNumOfNonBlank(g);
    }
  }

  /** Blank cells are `null`; a lone comma strips to "" and reads as 0. */
  lemma BlankAndCommaSpellings()
    ensures ToNum(Text("")) == None && ToNum(Text(" \t")) == None
    ensures ToNum(Text(",")) == Some(0)
  {
    assert IsBlank(" \t");
    assert !IsWhiteSpace(","[0]);
    SeparatorsOnlyIsZero(",");
  }

  lemma TrimNothing(t: string)
    requires t != [] && !IsWhiteSpace(t[0]) && !IsWhiteSpace(t[|t| - 1])
    ensures Trim(t) == t
  {
  }
}
