/** Front-matter values. Go keeps them as `interface{}`; the model makes the
    shapes the editor distinguishes explicit. */
module Meta {
  import opened Strings

  /** One metadata value as a decoder produces it, or as the editor's save
      writes it back. */
  datatype MetaValue =
    | Bool(b: bool)                   // `bool`
    | Str(s: string)                  // `string`
    | Int(i: int)                     // integer numbers
    | List(items: seq<MetaValue>)     // `[]interface{}` (decoded sequences)
    | StrList(strs: seq<string>)      // `[]string` (what save writes for lists)
    | Other(text: string)             // any other kind (floats, dates, nested
                                      // tables), carried as its `%v` text

  /** A decoded front-matter block: keys are unordered, as in a Go map. */
  type MetaMap = map<string, MetaValue>

  /** The two list shapes the editor shows as comma-separated text. */
  predicate IsListValue(v: MetaValue) {
    v.List? || v.StrList?
  }

  /** A text made of decimal digits only. */
  predicate IsDigits(s: string) {
    forall i :: 0 <= i < |s| ==> '0' <= s[i] <= '9'
  }

  /** The number a text of decimal digits denotes, read from the left. */
  function DecimalValue(s: string): (n: nat)
    requires IsDigits(s)
  {
    if |s| == 0 then 0
    else DecimalValue(s[..|s| - 1]) * 10 + (s[|s| - 1] as int - '0' as int)
  }

  /** Decimal digits of a natural number, without leading zeros: reading
      them back gives the number. */
  function NatToString(n: nat): (r: string)
    ensures |r| >= 1 && IsDigits(r)
    ensures r[0] == '0' ==> r == "0"
    ensures DecimalValue(r) == n
  {
    var d := [(48 + n % 10) as char];
    if n < 10 then d
    else
      var r := NatToString(n / 10) + d;
      assert r[..|r| - 1] == NatToString(n / 10);
      r
  }

  /** `r` is the canonical decimal text of `i`: a minus sign exactly for
      negative numbers, then digits without leading zeros that read back as
      the magnitude. */
  predicate DenotesInt(r: string, i: int) {
    |r| >= 1 && (r[0] == '-' <==> i < 0)
    && var digits := if i < 0 then r[1..] else r;
       |digits| >= 1 && IsDigits(digits) && (digits[0] == '0' ==> digits == "0")
       && DecimalValue(digits) == (if i < 0 then -i else i)
  }

  /** Go's `%v` text of an integer. */
  function IntToString(i: int): (r: string)
    ensures DenotesInt(r, i)
  {
    if i < 0 then
      var r := "-" + NatToString(-i);
      assert r[1..] == NatToString(-i);
      r
    else NatToString(i)
  }

  function Pow10(n: nat): (p: nat)
    ensures p >= 1
  {
    if n == 0 then 1 else 10 * Pow10(n - 1)
  }

  /** `k` digits denote less than 10^k, and at least 10^(k-1) when the first
      is not a zero. */
  lemma {:induction false} DecimalBounds(s: string)
    requires IsDigits(s)
    ensures DecimalValue(s) < Pow10(|s|)
    ensures |s| >= 1 && s[0] != '0' ==> DecimalValue(s) >= Pow10(|s| - 1)
  {
    if |s| > 0 {
      DecimalBounds(s[..|s| - 1]);
    }
  }

  /** Digit texts of the same length and value are the same text. */
  lemma {:induction false} SameLengthDigitsUnique(a: string, b: string)
    requires IsDigits(a) && IsDigits(b) && |a| == |b|
    requires DecimalValue(a) == DecimalValue(b)
    ensures a == b
  {
    if |a| > 0 {
      var n := |a| - 1;
      assert a[n] as int - '0' as int == DecimalValue(a) % 10 == b[n] as int - '0' as int;
      SameLengthDigitsUnique(a[..n], b[..n]);
      assert a == a[..n] + [a[n]] && b == b[..n] + [b[n]];
    }
  }

  /** The number of digits `n` is written with. */
  function NumDigits(n: nat): (k: nat)
    ensures k >= 1
  {
    if n < 10 then 1 else 1 + NumDigits(n / 10)
  }

  /** A canonical digit text is as long as its value's number of digits. */
  lemma {:induction false} CanonicalLength(a: string)
    requires |a| >= 1 && IsDigits(a) && (a[0] == '0' ==> a == "0")
    ensures |a| == NumDigits(DecimalValue(a))
  {
    if |a| > 1 {
      var p := a[..|a| - 1];
      CanonicalLength(p);
      DecimalBounds(a);
      PowMonotone(1, |a| - 1);
      assert DecimalValue(a) / 10 == DecimalValue(p);
    }
  }

  /** Canonical digit texts with the same value are the same text. */
  lemma CanonicalDigitsUnique(a: string, b: string)
    requires |a| >= 1 && IsDigits(a) && (a[0] == '0' ==> a == "0")
    requires |b| >= 1 && IsDigits(b) && (b[0] == '0' ==> b == "0")
    requires DecimalValue(a) == DecimalValue(b)
    ensures a == b
  {
    CanonicalLength(a);
    CanonicalLength(b);
    SameLengthDigitsUnique(a, b);
  }

  lemma {:induction false} PowMonotone(m: nat, n: nat)
    requires m <= n
    ensures Pow10(m) <= Pow10(n)
    decreases n
  {
    if m < n {
      PowMonotone(m, n - 1);
    }
  }

  /** An integer has exactly one canonical decimal text, so `DenotesInt`
      pins Go's `%v` text of an integer. */
  lemma IntTextUnique(r1: string, r2: string, i: int)
    requires DenotesInt(r1, i) && DenotesInt(r2, i)
    ensures r1 == r2
  {
    if i < 0 {
      CanonicalDigitsUnique(r1[1..], r2[1..]);
      assert r1 == [r1[0]] + r1[1..] && r2 == [r2[0]] + r2[1..];
    } else {
      CanonicalDigitsUnique(r1, r2);
    }
  }

  /** Go's `fmt.Sprintf("%v", v)` for each shape: slices print as their
      elements' text separated by blanks inside brackets. */
  function Show(v: MetaValue): (r: string)
    ensures v.Bool? ==> (r == "true" || r == "false") && (r == "true" <==> v.b)
    ensures v.Str? || v.Other? ==> r == (if v.Str? then v.s else v.text)
    ensures v.Int? ==> DenotesInt(r, v.i)
    ensures IsListValue(v) ==> |r| >= 2 && r[0] == '[' && r[|r| - 1] == ']'
    ensures v.List? && |v.items| == 0 ==> r == "[]"
    ensures v.StrList? && |v.strs| == 0 ==> r == "[]"
  {
    match v
    case Bool(b) => if b then "true" else "false"
    case Str(s) => s
    case Int(i) => IntToString(i)
    case List(items) =>
      "[" + Join(seq(|items|, k requires 0 <= k < |items| => Show(items[k])), " ") + "]"
    case StrList(strs) => "[" + Join(strs, " ") + "]"
    case Other(text) => text
  }

  /** The `%v` texts of a list's items. */
  function ItemTexts(items: seq<MetaValue>): (texts: seq<string>)
    ensures |texts| == |items|
    ensures forall k :: 0 <= k < |items| ==> texts[k] == Show(items[k])
  {
    seq(|items|, k requires 0 <= k < |items| => Show(items[k]))
  }

  /** A list's `%v` text is its items' texts, blank-separated inside
      brackets: when no item text holds a blank, cutting the inside of the
      brackets at blanks gives the items' texts back. */
  lemma ShowListParts(v: MetaValue)
    requires IsListValue(v)
    requires var texts := if v.List? then ItemTexts(v.items) else v.strs;
      |texts| >= 1 && forall k :: 0 <= k < |texts| ==> ' ' !in texts[k]
    ensures var r := Show(v);
      Split(r[1..|r| - 1], " ") == (if v.List? then ItemTexts(v.items) else v.strs)
  {
    var texts := if v.List? then ItemTexts(v.items) else v.strs;
    var r := Show(v);
    assert r == "[" + Join(texts, " ") + "]";
    assert r[1..|r| - 1] == Join(texts, [' ']);
    SplitJoinOneByte(texts, ' ');
  }
}
