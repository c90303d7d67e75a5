/**
 * The pieces of Python's `str` that the dashboards rely on: `str(n)`, the
 * `{n:02}` format, `split`, `split(sep)`, and the ordering `a < b` that
 * `sorted` uses on strings.
 */
module PyStr {

  predicate IsDigit(c: char) {
    '0' <= c <= '9'
  }

  /** The character spelling the decimal digit `d`. */
  function DigitChar(d: nat): (c: char)
    requires d < 10
    ensures IsDigit(c)
  {
    ('0' as int + d) as char
  }

  lemma DigitCharInjective(a: nat, b: nat)
    requires a < 10 && b < 10
    ensures DigitChar(a) == DigitChar(b) <==> a == b
    ensures DigitChar(a) < DigitChar(b) <==> a < b
  {
  }

  /** `str(n)` for a non-negative integer: its shortest decimal spelling. */
  function Decimal(n: nat): (s: string)
    ensures 1 <= |s|
    ensures forall i :: 0 <= i < |s| ==> IsDigit(s[i])
  {
    if n < 10 then [DigitChar(n)] else Decimal(n / 10) + [DigitChar(n % 10)]
  }

  /** `str(n)` for any integer. */
  function IntStr(n: int): string {
    if n < 0 then "-" + Decimal(-n) else Decimal(n)
  }

  /** `f"{n:02}"` for a non-negative integer: zero-padded to at least two places. */
  function ZeroPad2(n: nat): string {
    if n < 10 then "0" + Decimal(n) else Decimal(n)
  }

  function Pow10(w: nat): nat {
    if w == 0 then 1 else 10 * Pow10(w - 1)
  }

  lemma Pow10Small()
    ensures Pow10(1) == 10 && Pow10(2) == 100 && Pow10(3) == 1000 && Pow10(4) == 10000
  {
    assert Pow10(1) == 10;
    assert Pow10(2) == 100;
    assert Pow10(3) == 1000;
  }

  /** The last `w` decimal digits of `n`, most significant first. */
  function Digits(n: nat, w: nat): (s: string)
    ensures |s| == w
    ensures forall i :: 0 <= i < |s| ==> IsDigit(s[i])
  {
    if w == 0 then [] else Digits(n / 10, w - 1) + [DigitChar(n % 10)]
  }

  /** A number with exactly `w` digits is spelled by `str` as its `w` fixed-width digits. */
  lemma {:induction false} DecimalIsFixedWidth(n: nat, w: nat)
    requires 1 <= w && Pow10(w - 1) <= n < Pow10(w)
    ensures Decimal(n) == Digits(n, w)
  {
    if w > 1 {
      assert Pow10(w - 1) == 10 * Pow10(w - 2);
      assert Pow10(w - 2) <= n / 10 < Pow10(w - 1);
      DecimalIsFixedWidth(n / 10, w - 1);
    }
  }

  /** For months 1..12 the `{m:02}` format gives the two fixed-width digits. */
  lemma ZeroPad2IsTwoDigits(m: nat)
    requires 1 <= m <= 12
    ensures ZeroPad2(m) == Digits(m, 2)
  {
    Pow10Small();
    if m < 10 {
      DecimalIsFixedWidth(m, 1);
    } else {
      DecimalIsFixedWidth(m, 2);
    }
  }

  // ---------------------------------------------------------------------
  // String order

  /** Python's `a < b` on strings: lexicographic by code point, a proper prefix first. */
  predicate Less(a: string, b: string)
    decreases |a|
  {
    if b == [] then false
    else if a == [] then true
    else if a[0] != b[0] then a[0] < b[0]
    else Less(a[1..], b[1..])
  }

  lemma {:induction false} LessIrreflexive(a: string)
    ensures !Less(a, a)
    decreases |a|
  {
    if a != [] {
      LessIrreflexive(a[1..]);
    }
  }

  lemma {:induction false} LessAsymmetric(a: string, b: string)
    ensures Less(a, b) ==> !Less(b, a)
    decreases |a|
  {
    if a != [] && b != [] && a[0] == b[0] {
      LessAsymmetric(a[1..], b[1..]);
    }
  }

  lemma {:induction false} LessTransitive(a: string, b: string, c: string)
    requires Less(a, b) && Less(b, c)
    ensures Less(a, c)
    decreases |a|
  {
    if a != [] && a[0] == b[0] && b[0] == c[0] {
      LessTransitive(a[1..], b[1..], c[1..]);
    }
  }

  lemma {:induction false} LessTotal(a: string, b: string)
    ensures a == b || Less(a, b) || Less(b, a)
    decreases |a|
  {
    if a != [] && b != [] && a[0] == b[0] {
      LessTotal(a[1..], b[1..]);
      if a[1..] == b[1..] {
        assert a == [a[0]] + a[1..] && b == [b[0]] + b[1..];
      }
    }
  }

  /** Comparing two strings that start with equal-length parts: the first parts decide, then the rest. */
  lemma {:induction false} LessAppend(a: string, c: string, b: string, d: string)
    requires |a| == |b|
    ensures Less(a + c, b + d) <==> Less(a, b) || (a == b && Less(c, d))
    decreases |a|
  {
    if a == [] {
      assert a + c == c && b + d == d;
    } else {
      assert (a + c)[0] == a[0] && (b + d)[0] == b[0];
      assert (a + c)[1..] == a[1..] + c && (b + d)[1..] == b[1..] + d;
      LessAppend(a[1..], c, b[1..], d);
      if a[0] == b[0] {
        assert a == [a[0]] + a[1..] && b == [b[0]] + b[1..];
      }
    }
  }

  /** Fixed-width digit strings compare as strings exactly as their numbers compare. */
  lemma {:induction false} DigitsOrder(n: nat, m: nat, w: nat)
    requires n < Pow10(w) && m < Pow10(w)
    ensures Less(Digits(n, w), Digits(m, w)) <==> n < m
    ensures Digits(n, w) == Digits(m, w) <==> n == m
  {
    if w == 0 {
      LessIrreflexive([]);
    } else {
      var hn, hm := Digits(n / 10, w - 1), Digits(m / 10, w - 1);
      assert n / 10 < Pow10(w - 1) && m / 10 < Pow10(w - 1);
      DigitsOrder(n / 10, m / 10, w - 1);
      DigitCharInjective(n % 10, m % 10);
      LessAppend(hn, [DigitChar(n % 10)], hm, [DigitChar(m % 10)]);
      assert Less([DigitChar(n % 10)], [DigitChar(m % 10)]) <==> n % 10 < m % 10;
      if Digits(n, w) == Digits(m, w) {
        assert hn == Digits(n, w)[..w - 1] && hm == Digits(m, w)[..w - 1];
        assert Digits(n, w)[w - 1] == DigitChar(n % 10);
      }
    }
  }

  // ---------------------------------------------------------------------
  // Splitting

  /** `s.split(sep)[0]`: everything before the first `sep`, or all of `s`. */
  function SplitFirst(s: string, sep: char): (r: string)
    ensures r <= s
    ensures sep !in r
    ensures |r| < |s| ==> s[|r|] == sep
  {
    if s == [] || s[0] == sep then [] else [s[0]] + SplitFirst(s[1..], sep)
  }

  /** `s.split(sep)` for a one-character separator. */
  function SplitOn(s: string, sep: char): (r: seq<string>)
    ensures |r| >= 1 && r[0] == SplitFirst(s, sep)
    ensures forall i :: 0 <= i < |r| ==> sep !in r[i]
    decreases |s|
  {
    var head := SplitFirst(s, sep);
    if |head| == |s| then [s] else [head] + SplitOn(s[|head| + 1..], sep)
  }

  /** Splitting `a + sep + b` where `a` has no `sep` yields `a` and then the pieces of `b`. */
  lemma {:induction false} SplitOnAt(a: string, sep: char, b: string)
    requires sep !in a
    ensures SplitOn(a + [sep] + b, sep) == [a] + SplitOn(b, sep)
  {
    var s := a + [sep] + b;
    SplitFirstPrefix(a, sep, [sep] + b);
    assert s == a + ([sep] + b);
    assert s[|a| + 1..] == b;
  }

  lemma {:induction false} SplitFirstPrefix(a: string, sep: char, rest: string)
    requires sep !in a
    requires rest == [] || rest[0] == sep
    ensures SplitFirst(a + rest, sep) == a
  {
    if a != [] {
      assert (a + rest)[1..] == a[1..] + rest;
      SplitFirstPrefix(a[1..], sep, rest);
    } else {
      assert a + rest == rest;
    }
  }

  /** Python's `str.isspace` for one character: the separators `str.split()` breaks at. */
  predicate IsSpace(c: char) {
    || c == ' '
    || '\t' <= c <= '\r'
    || '\U{1C}' <= c <= '\U{1F}'
    || c == '\U{85}' || c == '\U{A0}' || c == '\U{1680}'
    || '\U{2000}' <= c <= '\U{200A}'
    || c == '\U{2028}' || c == '\U{2029}' || c == '\U{202F}' || c == '\U{205F}' || c == '\U{3000}'
  }

  predicate NoSpace(w: string) {
    forall k :: 0 <= k < |w| ==> !IsSpace(w[k])
  }

  /** The characters of `s` that are not whitespace, in order. */
  function NonSpace(s: string): string {
    if s == [] then [] else (if IsSpace(s[0]) then [] else [s[0]]) + NonSpace(s[1..])
  }

  /** The strings of `parts` joined end to end (`"".join(parts)`). */
  function Concat(parts: seq<string>): string {
    if parts == [] then [] else parts[0] + Concat(parts[1..])
  }

  lemma {:induction false} ConcatAppend(a: seq<string>, b: seq<string>)
    ensures Concat(a + b) == Concat(a) + Concat(b)
  {
    if a == [] {
      assert a + b == b;
    } else {
      assert (a + b)[1..] == a[1..] + b;
      ConcatAppend(a[1..], b);
    }
  }

  lemma {:induction false} NonSpaceAppend(a: string, b: string)
    ensures NonSpace(a + b) == NonSpace(a) + NonSpace(b)
  {
    if a == [] {
      assert a + b == b;
    } else {
      assert (a + b)[1..] == a[1..] + b;
      NonSpaceAppend(a[1..], b);
    }
  }

  lemma {:induction false} NonSpaceOfWord(w: string)
    requires NoSpace(w)
    ensures NonSpace(w) == w
  {
    if w != [] {
      NonSpaceOfWord(w[1..]);
    }
  }

  /** The longest prefix of `s` without whitespace. */
  function LeadingWord(s: string): (w: string)
    ensures w <= s && NoSpace(w)
    ensures |w| < |s| ==> IsSpace(s[|w|])
  {
    if s == [] || IsSpace(s[0]) then [] else [s[0]] + LeadingWord(s[1..])
  }

  /** `s.split()`: the maximal runs of non-whitespace characters, in order. */
  function Split(s: string): seq<string>
    decreases |s|
  {
    if s == [] then []
    else if IsSpace(s[0]) then Split(s[1..])
    else
      var w := LeadingWord(s);
      [w] + Split(s[|w|..])
  }

  /** Every token of `split()` is non-empty and free of whitespace. */
  lemma {:induction false} SplitTokensAreWords(s: string)
    ensures forall i :: 0 <= i < |Split(s)| ==> Split(s)[i] != [] && NoSpace(Split(s)[i])
    decreases |s|
  {
    if s != [] {
      if IsSpace(s[0]) {
        SplitTokensAreWords(s[1..]);
      } else {
        var w := LeadingWord(s);
        SplitTokensAreWords(s[|w|..]);
      }
    }
  }

  /** The tokens of `split()` put together are exactly the non-whitespace characters of `s`. */
  lemma {:induction false} SplitKeepsText(s: string)
    ensures Concat(Split(s)) == NonSpace(s)
    decreases |s|
  {
    if s != [] {
      if IsSpace(s[0]) {
        SplitKeepsText(s[1..]);
      } else {
        var w := LeadingWord(s);
        var rest := Split(s[|w|..]);
        SplitKeepsText(s[|w|..]);
        assert s == w + s[|w|..];
        NonSpaceAppend(w, s[|w|..]);
        NonSpaceOfWord(w);
        assert ([w] + rest)[1..] == rest;
      }
    }
  }

  /** A non-empty run of non-whitespace characters is a single token. */
  lemma SplitWord(w: string)
    requires w != [] && NoSpace(w)
    ensures Split(w) == [w]
  {
    LeadingWordOfWord(w);
    assert w[|w|..] == [];
  }

  lemma {:induction false} LeadingWordOfWord(w: string)
    requires NoSpace(w)
    ensures LeadingWord(w) == w
  {
    if w != [] {
      LeadingWordOfWord(w[1..]);
      assert w == [w[0]] + w[1..];
    }
  }

  /** The leading word of `a` is unchanged by what follows `a` when a space ends it. */
  lemma {:induction false} LeadingWordAppend(a: string, t: string)
    requires |LeadingWord(a)| < |a| || t == [] || IsSpace(t[0])
    ensures LeadingWord(a + t) == LeadingWord(a)
  {
    if a == [] {
      assert a + t == t;
    } else if !IsSpace(a[0]) {
      assert (a + t)[0] == a[0] && (a + t)[1..] == a[1..] + t;
      LeadingWordAppend(a[1..], t);
    }
  }

  /**
   * A whitespace character separates tokens: the tokens of `a + [c] + b` are
   * those of `a` followed by those of `b`. With `Split("") == []` and
   * `SplitWord`, this fixes `split()` on every string, so its tokens are the
   * maximal runs of non-whitespace characters.
   */
  lemma SplitAtSpace(a: string, c: char, b: string)
    requires IsSpace(c)
    ensures Split(a + [c] + b) == Split(a) + Split(b)
  {
    var t := [c] + b;
    SplitBeforeSpace(a, t);
    assert a + [c] + b == a + t && t[1..] == b;
  }

  /** Splitting `a + t`, where `t` is empty or starts with whitespace, splits `a` and `t` apart. */
  lemma {:induction false} SplitBeforeSpace(a: string, t: string)
    requires t == [] || IsSpace(t[0])
    ensures Split(a + t) == Split(a) + Split(t)
    decreases |a|
  {
    var s := a + t;
    if a == [] {
      assert s == t;
    } else if IsSpace(a[0]) {
      assert s[0] == a[0] && s[1..] == a[1..] + t;
      SplitBeforeSpace(a[1..], t);
    } else {
      var w := LeadingWord(a);
      SplitBeforeSpace(a[|w|..], t);
      SplitPastWord(a, t);
    }
  }

  /** The step of `SplitBeforeSpace` past the leading word of `a`. */
  lemma SplitPastWord(a: string, t: string)
    requires a != [] && !IsSpace(a[0]) && (t == [] || IsSpace(t[0]))
    requires var rest := a[|LeadingWord(a)|..]; Split(rest + t) == Split(rest) + Split(t)
    ensures Split(a + t) == Split(a) + Split(t)
  {
    var w := LeadingWord(a);
    SplitOfWordFirst(a, t);
    AppendAssoc([w], Split(a[|w|..]), Split(t));
  }

  /** Before a space (or the end), the leading word of `a` is the first token of `a + t`. */
  lemma SplitOfWordFirst(a: string, t: string)
    requires a != [] && !IsSpace(a[0]) && (t == [] || IsSpace(t[0]))
    ensures var w := LeadingWord(a); Split(a + t) == [w] + Split(a[|w|..] + t)
  {
    var s, w := a + t, LeadingWord(a);
    assert s != [] && s[0] == a[0];
    LeadingWordAppend(a, t);
    assert s[|w|..] == a[|w|..] + t;
  }

  lemma AppendAssoc(x: seq<string>, y: seq<string>, z: seq<string>)
    ensures x + (y + z) == x + y + z
  {
  }
}
