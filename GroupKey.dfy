/**
 * The grouping key of `findDuplicates`: the file's name, an underscore and
 * the decimal text of its length. Two files share a key exactly when they
 * share name and length, because the decimal text never holds an underscore.
 */
module GroupKey {
  import opened Wrappers
  import opened FileTree

  predicate IsDigit(c: char) {
    '0' <= c <= '9'
  }

  function DigitChar(d: nat): (c: char)
    requires d < 10
    ensures IsDigit(c) && c as int - '0' as int == d
  {
    "0123456789"[d]
  }

  function DigitValue(c: char): nat
    requires IsDigit(c)
  {
    c as int - '0' as int
  }

  /**
   * The decimal text of a non-negative length, as string templates print a
   * `Long`: digits only, and no leading zero except for zero itself.
   */
  function DecimalText(n: nat): (s: string)
    ensures |s| > 0
    ensures forall i :: 0 <= i < |s| ==> IsDigit(s[i])
    ensures |s| > 1 ==> s[0] != '0'
  {
    if n < 10 then [DigitChar(n)] else DecimalText(n / 10) + [DigitChar(n % 10)]
  }

  /** Reads decimal digits back into a number (the inverse of `DecimalText`). */
  function ParseDecimal(s: string): nat
    requires forall i :: 0 <= i < |s| ==> IsDigit(s[i])
  {
    if s == [] then 0
    else ParseDecimal(s[..|s| - 1]) * 10 + DigitValue(s[|s| - 1])
  }

  lemma {:induction false} ParseDecimalText(n: nat)
    ensures ParseDecimal(DecimalText(n)) == n
  {
    if n >= 10 {
      var s := DecimalText(n);
      assert s[..|s| - 1] == DecimalText(n / 10);
      ParseDecimalText(n / 10);
    }
  }

  /**
   * The key `"${name}_${length()}"` built for each file: the name, the
   * separator, then at least one digit and nothing else, so the last
   * underscore of a key is the one right after the name.
   */
  function Key(f: FileRecord): (k: string)
    ensures |k| > |f.name| + 1 && k[..|f.name| + 1] == f.name + "_"
    ensures forall i :: |f.name| < i < |k| ==> IsDigit(k[i])
  {
    f.name + "_" + DecimalText(f.size)
  }

  /**
   * Splits a string at its last underscore into the text before it and the
   * text after it; `None` when there is no underscore.
   */
  function SplitAtLast(s: string): Option<(string, string)>
  {
    if s == [] then None
    else if s[|s| - 1] == '_' then Some((s[..|s| - 1], []))
    else match SplitAtLast(s[..|s| - 1])
      case None => None
      case Some((before, after)) => Some((before, after + [s[|s| - 1]]))
  }

  lemma {:induction false} SplitAtSeparator(name: string, digits: string)
    requires '_' !in digits
    ensures SplitAtLast(name + "_" + digits) == Some((name, digits))
    decreases |digits|
  {
    var s := name + "_" + digits;
    if digits == [] {
      assert s[..|s| - 1] == name;
    } else {
      var m := |digits| - 1;
      assert s[..|s| - 1] == name + "_" + digits[..m];
      assert digits == digits[..m] + [digits[m]];
      SplitAtSeparator(name, digits[..m]);
    }
  }

  /** Recovers the name and the length from a key. */
  function DecodeKey(k: string): Option<(string, nat)>
  {
    match SplitAtLast(k)
    case None => None
    case Some((name, digits)) =>
      if |digits| > 0 && forall i :: 0 <= i < |digits| ==> IsDigit(digits[i])
      then Some((name, ParseDecimal(digits)))
      else None
  }

  /** Every key decodes back to the name and the length it was built from. */
  lemma KeyRoundTrip(f: FileRecord)
    ensures DecodeKey(Key(f)) == Some((f.name, f.size))
  {
    var d := DecimalText(f.size);
    assert '_' !in d by {
      forall i | 0 <= i < |d| ensures d[i] != '_' { assert IsDigit(d[i]); }
    }
    SplitAtSeparator(f.name, d);
    ParseDecimalText(f.size);
  }

  /** Two files get the same key exactly when they have the same name and the same length. */
  lemma KeyInjective(a: FileRecord, b: FileRecord)
    ensures Key(a) == Key(b) <==> a.name == b.name && a.size == b.size
  {
    KeyRoundTrip(a);
    KeyRoundTrip(b);
  }
}
