/**
 * The ECMAScript string built-ins the gallery's core leans on, over Dafny strings:
 * `String.prototype.split` with a one-character separator and `Array.prototype.join`,
 * `.pop()` of a split (the last segment), ASCII `toLowerCase`, `String(n)` for
 * integers and `parseInt(s, 10)` on an unsigned leading-digit prefix.
 */
module JsText {

  /** `undefined`/`null` versus a present value. */
  datatype Option<T> = None | Some(value: T)

  // ---------------------------------------------------------------------------
  // split / join
  // ---------------------------------------------------------------------------

  /** `s.split(sep)`: the pieces between separators; there is always at least one. */
  function Split(s: string, sep: char): (parts: seq<string>)
    ensures |parts| >= 1
    ensures forall i :: 0 <= i < |parts| ==> sep !in parts[i]
    decreases |s|
  {
    if |s| == 0 then [""]
    else
      var rest := Split(s[1..], sep);
      if s[0] == sep then [""] + rest
      else [[s[0]] + rest[0]] + rest[1..]
  }

  /** `parts.join(sep)`. */
  function Join(parts: seq<string>, sep: char): string
  {
    if |parts| == 0 then ""
    else if |parts| == 1 then parts[0]
    else parts[0] + [sep] + Join(parts[1..], sep)
  }

  /** Prefixing the first part prefixes the joined string. */
  lemma JoinPrefixFirst(x: string, parts: seq<string>, sep: char)
    requires |parts| >= 1
    ensures Join([x + parts[0]] + parts[1..], sep) == x + Join(parts, sep)
  {
    var moved := [x + parts[0]] + parts[1..];
    if |parts| > 1 {
      assert moved[1..] == parts[1..];
    }
  }

  /** Joining the pieces of a split gives back the string. */
  lemma {:induction false} JoinSplit(s: string, sep: char)
    ensures Join(Split(s, sep), sep) == s
    decreases |s|
  {
    if |s| > 0 {
      var rest := Split(s[1..], sep);
      JoinSplit(s[1..], sep);
      if s[0] == sep {
        assert Split(s, sep) == [""] + rest;
        assert s == [sep] + s[1..];
      } else {
        var parts := Split(s, sep);
        assert parts == [[s[0]] + rest[0]] + rest[1..];
        if |rest| == 1 {
          assert s == [s[0]] + rest[0];
        } else {
          assert parts[1..] == rest[1..];
          assert Join(rest, sep) == rest[0] + [sep] + Join(rest[1..], sep);
          assert s == [s[0]] + s[1..];
        }
      }
    }
  }

  /** Splitting a separator-free prefix followed by `t` glues the prefix to the first piece of `t`. */
  lemma {:induction false} SplitFreePrefix(p: string, t: string, sep: char)
    requires sep !in p
    ensures Split(p + t, sep) == [p + Split(t, sep)[0]] + Split(t, sep)[1..]
    decreases |p|
  {
    if |p| == 0 {
      var parts := Split(t, sep);
      assert p + t == t && p + parts[0] == parts[0];
      assert parts == [parts[0]] + parts[1..];
    } else {
      var pt := p + t;
      assert pt[0] == p[0] && pt[1..] == p[1..] + t;
      SplitFreePrefix(p[1..], t, sep);
      assert [p[0]] + (p[1..] + Split(t, sep)[0]) == p + Split(t, sep)[0];
    }
  }

  /** Splitting a join of separator-free pieces gives back the pieces. */
  lemma {:induction false} SplitJoin(parts: seq<string>, sep: char)
    requires |parts| >= 1
    requires forall i :: 0 <= i < |parts| ==> sep !in parts[i]
    ensures Split(Join(parts, sep), sep) == parts
    decreases |parts|
  {
    if |parts| == 1 {
      SplitFreePrefix(parts[0], "", sep);
      assert parts[0] + "" == parts[0];
    } else {
      var tail := Join(parts[1..], sep);
      SplitJoin(parts[1..], sep);
      SplitFreePrefix(parts[0], [sep] + tail, sep);
      assert parts[0] + [sep] + tail == parts[0] + ([sep] + tail);
      assert ([sep] + tail)[1..] == tail;
      assert Split([sep] + tail, sep) == [""] + parts[1..];
      assert parts[0] + "" == parts[0];
    }
  }

  // ---------------------------------------------------------------------------
  // the last segment: `s.split(sep).pop()`
  // ---------------------------------------------------------------------------

  /** `s.split(sep).pop()`; `pop` of a split never yields `undefined`. */
  function LastSegment(s: string, sep: char): string
  {
    var parts := Split(s, sep);
    parts[|parts| - 1]
  }

  predicate HasSuffix(s: string, suffix: string)
  {
    |suffix| <= |s| && s[|s| - |suffix|..] == suffix
  }

  /**
   * `p` is the longest separator-free tail of `s`: it ends `s`, holds no separator,
   * and is either all of `s` or preceded by a separator.
   */
  predicate IsLastSegment(s: string, p: string, sep: char)
  {
    sep !in p && HasSuffix(s, p) && (|p| == |s| || s[|s| - |p| - 1] == sep)
  }

  /** At most one string is the last segment of `s`. */
  lemma LastSegmentUnique(s: string, p: string, q: string, sep: char)
    requires IsLastSegment(s, p, sep) && IsLastSegment(s, q, sep)
    ensures p == q
  {
  }

  /** A split yields a single piece exactly when the separator does not occur. */
  lemma SplitSingle(t: string, sep: char)
    ensures |Split(t, sep)| == 1 <==> sep !in t
  {
    if sep !in t {
      SplitFreePrefix(t, "", sep);
      assert t + "" == t;
    }
    if |Split(t, sep)| == 1 {
      JoinSplit(t, sep);
    }
  }

  /** `split(sep).pop()` yields exactly the longest separator-free tail. */
  lemma {:induction false} LastSegmentIsLast(s: string, sep: char)
    ensures IsLastSegment(s, LastSegment(s, sep), sep)
    decreases |s|
  {
    SplitSingle(s, sep);
    if sep in s {
      var t := s[1..];
      var q := LastSegment(t, sep);
      LastSegmentIsLast(t, sep);
      SplitSingle(t, sep);
      var rest := Split(t, sep);
      if s[0] == sep {
        assert Split(s, sep) == [""] + rest;
      } else {
        assert sep in t;
        assert Split(s, sep) == [[s[0]] + rest[0]] + rest[1..];
      }
      assert LastSegment(s, sep) == q;
      assert s[|s| - |q|..] == t[|t| - |q|..];
      if |q| < |t| {
        assert s[|s| - |q| - 1] == t[|t| - |q| - 1];
      } else {
        assert q == t;
        assert s[0] == sep;
      }
    } else {
      JoinSplit(s, sep);
      assert LastSegment(s, sep) == s && s[0..] == s;
    }
  }

  /** The last segment is `p` exactly when `p` is the longest separator-free tail. */
  lemma LastSegmentIff(s: string, p: string, sep: char)
    ensures LastSegment(s, sep) == p <==> IsLastSegment(s, p, sep)
  {
    LastSegmentIsLast(s, sep);
    if IsLastSegment(s, p, sep) {
      LastSegmentUnique(s, p, LastSegment(s, sep), sep);
    }
  }

  /**
   * For a dot-free extension `ext`, the last `.`-segment of `s` is `ext` exactly
   * when `s` is `ext` itself or ends in `"." + ext`.
   */
  predicate EndsWithExtension(s: string, ext: string)
  {
    s == ext || HasSuffix(s, "." + ext)
  }

  lemma ExtensionIff(s: string, ext: string)
    requires '.' !in ext
    ensures LastSegment(s, '.') == ext <==> EndsWithExtension(s, ext)
  {
    LastSegmentIff(s, ext, '.');
    if HasSuffix(s, "." + ext) {
      assert s[|s| - |ext| - 1] == ("." + ext)[0];
      assert s[|s| - |ext|..] == ("." + ext)[1..];
    }
    if IsLastSegment(s, ext, '.') && |ext| < |s| {
      assert s[|s| - |ext| - 1..] == [s[|s| - |ext| - 1]] + s[|s| - |ext|..];
    }
  }

  // ---------------------------------------------------------------------------
  // toLowerCase on ASCII letters
  // ---------------------------------------------------------------------------

  function ToLowerChar(c: char): char
  {
    if 'A' <= c <= 'Z' then (c as int + 32) as char else c
  }

  /** `s.toLowerCase()`, restricted to the ASCII letters A-Z. */
  function ToLower(s: string): string
  {
    seq(|s|, i requires 0 <= i < |s| => ToLowerChar(s[i]))
  }

  /** Lower-casing before or after taking the last `.`-segment gives the same string. */
  lemma LowerLastSegment(s: string)
    ensures LastSegment(ToLower(s), '.') == ToLower(LastSegment(s, '.'))
  {
    var p := LastSegment(s, '.');
    LastSegmentIsLast(s, '.');
    var ls, lp := ToLower(s), ToLower(p);
    assert ls[|ls| - |lp|..] == lp;
    assert '.' !in lp by {
      forall i | 0 <= i < |lp| ensures lp[i] != '.' {
        assert p[i] != '.';
      }
    }
    assert IsLastSegment(ls, lp, '.');
    LastSegmentIff(ls, lp, '.');
  }

  /**
   * `(s.split('.').pop() || '').toLowerCase()`: the lower-cased last `.`-segment
   * (`pop` of a split is never empty-handed, so the `|| ''` never applies).
   */
  function LowerExtension(s: string): string
  {
    ToLower(LastSegment(s, '.'))
  }

  // ---------------------------------------------------------------------------
  // String(n) and parseInt(s, 10)
  // ---------------------------------------------------------------------------

  predicate IsDigit(c: char)
  {
    '0' <= c <= '9'
  }

  predicate AllDigits(s: string)
  {
    forall i :: 0 <= i < |s| ==> IsDigit(s[i])
  }

  function DigitChar(d: nat): (c: char)
    requires d < 10
    ensures IsDigit(c) && c as int - '0' as int == d
  {
    ('0' as int + d) as char
  }

  /** `String(n)` for a non-negative integer: its decimal digits, no leading zero. */
  function DecimalString(n: nat): (s: string)
    ensures |s| >= 1 && AllDigits(s)
    ensures s[0] == '0' ==> n == 0
    decreases n
  {
    if n < 10 then [DigitChar(n)] else DecimalString(n / 10) + [DigitChar(n % 10)]
  }

  /** `String(i)` for any integer. */
  function IntString(i: int): string
  {
    if i < 0 then "-" + DecimalString(-i) else DecimalString(i)
  }

  /** The run of decimal digits `parseInt` reads from the front of `s`. */
  function LeadingDigits(s: string): (d: string)
    ensures AllDigits(d) && d <= s
    ensures |d| == |s| || !IsDigit(s[|d|])
  {
    if |s| == 0 || !IsDigit(s[0]) then "" else [s[0]] + LeadingDigits(s[1..])
  }

  /** The number a run of decimal digits denotes. */
  function DigitsValue(d: string): nat
    requires AllDigits(d)
  {
    if |d| == 0 then 0 else DigitsValue(d[..|d| - 1]) * 10 + (d[|d| - 1] as int - '0' as int)
  }

  /** `parseInt(s, 10)`: the value of the leading digits, `None` (NaN) when there are none. */
  function ParseInt(s: string): (r: Option<nat>)
    ensures r.None? <==> (|s| == 0 || !IsDigit(s[0]))
  {
    var d := LeadingDigits(s);
    if d == "" then None else Some(DigitsValue(d))
  }

  lemma {:induction false} LeadingDigitsAll(s: string)
    requires AllDigits(s)
    ensures LeadingDigits(s) == s
    decreases |s|
  {
    if |s| > 0 {
      LeadingDigitsAll(s[1..]);
    }
  }

  lemma {:induction false} DigitsValueDecimal(n: nat)
    ensures DigitsValue(DecimalString(n)) == n
    decreases n
  {
    if n >= 10 {
      var s := DecimalString(n);
      assert s[..|s| - 1] == DecimalString(n / 10);
      DigitsValueDecimal(n / 10);
    }
  }

  /** `parseInt(String(n), 10) == n`: a decimal token round-trips. */
  lemma ParseDecimal(n: nat)
    ensures ParseInt(DecimalString(n)) == Some(n)
  {
    LeadingDigitsAll(DecimalString(n));
    DigitsValueDecimal(n);
  }
}
