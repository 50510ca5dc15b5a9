/** The string operations the scripts use: trimming, upper-casing, substring search, comparison, zero-padded numbers, and tokens. */
module Text {

  predicate IsSpace(c: char) { c in {' ', '\t', '\n', '\r'} }

  function StripLeft(s: string): string {
    if s != "" && IsSpace(s[0]) then StripLeft(s[1..]) else s
  }

  function StripRight(s: string): string {
    if s != "" && IsSpace(s[|s| - 1]) then StripRight(s[..|s| - 1]) else s
  }

  function Strip(s: string): string { StripRight(StripLeft(s)) }

  /** Nothing to trim at either end. */
  predicate Stripped(s: string) { s == "" || (!IsSpace(s[0]) && !IsSpace(s[|s| - 1])) }

  lemma {:induction false} StripLeftShape(s: string)
    ensures StripLeft(s) == "" || !IsSpace(StripLeft(s)[0])
  {
    if s != "" && IsSpace(s[0]) {
      StripLeftShape(s[1..]);
    }
  }

  lemma {:induction false} StripRightShape(s: string)
    ensures StripRight(s) == "" || !IsSpace(StripRight(s)[|StripRight(s)| - 1])
    ensures s != "" && !IsSpace(s[0]) ==> StripRight(s) != "" && StripRight(s)[0] == s[0]
  {
    if s != "" && IsSpace(s[|s| - 1]) {
      StripRightShape(s[..|s| - 1]);
    }
  }

  /** Trimming yields a trimmed text and leaves exactly the trimmed texts alone. */
  lemma StripIsIdempotent(s: string)
    ensures Stripped(Strip(s))
    ensures Strip(s) == s <==> Stripped(s)
    ensures Strip(Strip(s)) == Strip(s)
  {
    StripLeftShape(s);
    StripRightShape(StripLeft(s));
    var t := Strip(s);
    assert Stripped(t);
    assert StripLeft(t) == t && StripRight(t) == t;
  }

  function UpperChar(c: char): char {
    if 'a' <= c <= 'z' then (c as int - 'a' as int + 'A' as int) as char else c
  }

  function Upper(s: string): (r: string)
    ensures |r| == |s| && forall i :: 0 <= i < |r| ==> r[i] == UpperChar(s[i])
  {
    if s == "" then "" else [UpperChar(s[0])] + Upper(s[1..])
  }

  lemma UpperIsIdempotent(s: string)
    ensures Upper(Upper(s)) == Upper(s)
  {
  }

  predicate Contains(text: string, part: string) {
    |part| <= |text| && (part <= text || (text != "" && Contains(text[1..], part)))
  }

  function Digit(n: nat): char
    requires n < 10
  {
    ['0', '1', '2', '3', '4', '5', '6', '7', '8', '9'][n]
  }

  function Decimal(n: nat): string { if n < 10 then [Digit(n)] else Decimal(n / 10) + [Digit(n % 10)] }

  /** At least three digits, like `:03d`. */
  function Padded(n: nat): string {
    var digits := Decimal(n);
    if |digits| == 1 then "00" + digits else if |digits| == 2 then "0" + digits else digits
  }

  /** The order of strings: by the first character that differs, a prefix first. */
  predicate TextLe(a: string, b: string) {
    a == "" || (b != "" && (a[0] < b[0] || (a[0] == b[0] && TextLe(a[1..], b[1..]))))
  }

  lemma {:induction false} TextLeIsTotal(a: string, b: string)
    ensures TextLe(a, b) || TextLe(b, a)
    ensures TextLe(a, b) && TextLe(b, a) ==> a == b
  {
    if a != "" && b != "" && a[0] == b[0] {
      TextLeIsTotal(a[1..], b[1..]);
      assert a == [a[0]] + a[1..] && b == [b[0]] + b[1..];
    }
  }

  lemma {:induction false} TextLeIsTransitive(a: string, b: string, c: string)
    requires TextLe(a, b) && TextLe(b, c)
    ensures TextLe(a, c)
  {
    if a != "" && b != "" && c != "" && a[0] == b[0] == c[0] {
      TextLeIsTransitive(a[1..], b[1..], c[1..]);
    }
  }

  predicate IsHex(s: string) { s != "" && forall c :: c in s ==> '0' <= c <= '9' || 'a' <= c <= 'f' }

  lemma UpperMiddle(prefix: string, middle: string, suffix: string)
    requires Upper(prefix) == prefix && Upper(suffix) == suffix
    ensures Upper(prefix + middle + suffix) == prefix + middle + suffix <==> Upper(middle) == middle
  {
    var before, after := prefix + middle + suffix, prefix + Upper(middle) + suffix;
    hide Upper;
    assert before[|prefix|..|prefix| + |middle|] == middle;
    assert after[|prefix|..|prefix| + |middle|] == Upper(middle);
  }

  /** Neither trimming nor upper-casing changes the ends of a token, so only its middle decides. */
  lemma TokenUnderUpper(prefix: string, normalized: string, suffix: string)
    requires prefix != "" && !IsSpace(prefix[0]) && Upper(prefix) == prefix
    requires suffix != "" && !IsSpace(suffix[|suffix| - 1]) && Upper(suffix) == suffix
    ensures var token := prefix + normalized + suffix; Upper(Strip(token)) == token <==> Upper(normalized) == normalized
  {
    hide Upper, Strip;
    var token := prefix + normalized + suffix;
    assert token[0] == prefix[0] && token[|token| - 1] == suffix[|suffix| - 1];
    StripIsIdempotent(token);
    UpperMiddle(prefix, normalized, suffix);
  }

  lemma SuffixIsUpper(digits: string)
    requires IsHex(digits)
    ensures var suffix := "_" + Upper(digits); !IsSpace(suffix[|suffix| - 1]) && Upper(suffix) == suffix
  {
    UpperIsIdempotent(digits);
    assert Upper("_") == "_";
    var last := digits[|digits| - 1];
    assert last in digits;
    assert ("_" + Upper(digits))[|digits|] == UpperChar(last);
  }
}
