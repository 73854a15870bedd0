/**
 * String primitives the two handlers are built from: Python's `in` on
 * strings, first-occurrence search, `str.replace`, `str.split` on a
 * one-character separator, ASCII `str.lower`, and `int()` restricted to
 * decimal digits.
 */
module Text {
  import opened Wrappers

  predicate IsDigit(c: char) { '0' <= c <= '9' }
  predicate IsAsciiUpper(c: char) { 'A' <= c <= 'Z' }
  predicate IsAsciiLetter(c: char) { IsAsciiUpper(c) || 'a' <= c <= 'z' }
  predicate IsAlnum(c: char) { IsAsciiLetter(c) || IsDigit(c) }
  /** The regex class `\w`, restricted to ASCII. */
  predicate IsWordChar(c: char) { IsAlnum(c) || c == '_' }

  predicate AllDigits(s: string) { forall i :: 0 <= i < |s| ==> IsDigit(s[i]) }

  /** Length of the run of digits at the start of `s` (what `\d+` consumes). */
  function DigitRun(s: string): (n: nat)
    ensures n <= |s| && AllDigits(s[..n])
    ensures n == |s| || !IsDigit(s[n])
    decreases |s|
  {
    if s == [] || !IsDigit(s[0]) then 0
    else
      var n := 1 + DigitRun(s[1..]);
      assert s[..n] == [s[0]] + s[1..][..n - 1];
      n
  }

  // ---------------------------------------------------------------------
  // Substring search
  // ---------------------------------------------------------------------

  /** `p` occurs in `s` starting at index `i`. */
  predicate OccursAt(s: string, p: string, i: nat) {
    i <= |s| && p <= s[i..]
  }

  /** Python's `p in s` on strings, as a definition. */
  ghost predicate Occurs(s: string, p: string) {
    exists i: nat :: i <= |s| && OccursAt(s, p, i)
  }

  lemma OccursAtShift(s: string, p: string)
    requires s != []
    ensures forall j: nat :: 0 < j ==> (OccursAt(s, p, j) <==> OccursAt(s[1..], p, j - 1))
  {
    forall j: nat | 0 < j ensures OccursAt(s, p, j) <==> OccursAt(s[1..], p, j - 1) {
      if j <= |s| {
        assert s[j..] == s[1..][j - 1..];
      }
    }
  }

  /** Index of the first occurrence of `p` in `s`, if any. */
  function IndexOf(s: string, p: string): (r: Option<nat>)
    ensures r.Some? ==> OccursAt(s, p, r.value)
    ensures r.Some? ==> forall j: nat :: j < r.value ==> !OccursAt(s, p, j)
    ensures r.None? ==> forall j: nat :: j <= |s| ==> !OccursAt(s, p, j)
    decreases |s|
  {
    if p <= s then Some(0)
    else if s == [] then None
    else
      assert s[0..] == s;
      OccursAtShift(s, p);
      match IndexOf(s[1..], p)
      case None => None
      case Some(k) => Some(k + 1)
  }

  /** Python's `p in s` on strings, as computed. */
  predicate Contains(s: string, p: string)
    ensures Contains(s, p) <==> Occurs(s, p)
  {
    IndexOf(s, p).Some?
  }

  // ---------------------------------------------------------------------
  // str.replace
  // ---------------------------------------------------------------------

  /**
   * Python's `s.replace(pat, rep)`: scan left to right, replace every
   * non-overlapping occurrence of `pat`.
   */
  function ReplaceAll(s: string, pat: string, rep: string): (r: string)
    requires pat != []
    ensures |rep| <= |pat| ==> |r| <= |s|
    ensures |rep| >= |pat| ==> |r| >= |s|
    decreases |s|
  {
    if pat <= s then rep + ReplaceAll(s[|pat|..], pat, rep)
    else if s == [] then []
    else [s[0]] + ReplaceAll(s[1..], pat, rep)
  }

  /** Replacing a pattern that does not occur changes nothing. */
  lemma {:induction false} ReplaceAllWithoutOccurrence(s: string, pat: string, rep: string)
    requires pat != []
    requires !Occurs(s, pat)
    ensures ReplaceAll(s, pat, rep) == s
    decreases |s|
  {
    assert !OccursAt(s, pat, 0);
    if s != [] {
      OccursAtShift(s, pat);
      assert !Occurs(s[1..], pat) by {
        forall j: nat | j <= |s[1..]| ensures !OccursAt(s[1..], pat, j) {
          assert !OccursAt(s, pat, j + 1);
        }
      }
      ReplaceAllWithoutOccurrence(s[1..], pat, rep);
    }
  }

  lemma ReplacedStartsWithReplacement(t: string, pat: string, c: char, q: string)
    requires pat != [] && pat <= t
    requires q != [] && q <= ReplaceAll(t, pat, [c])
    ensures q[0] == c
  {
  }

  /**
   * When `pat` is replaced by a single character `c` that `pat` does not
   * contain, a prefix of the output free of `c` was already a prefix of
   * the input.
   */
  lemma {:induction false} PrefixOfReplaced(t: string, pat: string, c: char, q: string)
    requires pat != [] && c !in q
    requires q <= ReplaceAll(t, pat, [c])
    ensures q <= t
    decreases |t|
  {
    if q != [] {
      if pat <= t {
        ReplacedStartsWithReplacement(t, pat, c, q);
        assert false;
      } else if t != [] {
        var rest := ReplaceAll(t[1..], pat, [c]);
        assert ReplaceAll(t, pat, [c]) == [t[0]] + rest;
        assert q[1..] <= rest;
        PrefixOfReplaced(t[1..], pat, c, q[1..]);
      }
    }
  }

  /**
   * Replacing every `pat` by a character that `pat` does not contain
   * leaves no occurrence of `pat` behind.
   */
  lemma {:induction false} ReplaceAllRemovesPattern(s: string, pat: string, c: char)
    requires pat != [] && c !in pat
    ensures !Occurs(ReplaceAll(s, pat, [c]), pat)
    decreases |s|
  {
    var r := ReplaceAll(s, pat, [c]);
    if pat <= s {
      var rest := ReplaceAll(s[|pat|..], pat, [c]);
      assert r == [c] + rest;
      ReplaceAllRemovesPattern(s[|pat|..], pat, c);
      OccursAtShift(r, pat);
      assert r[1..] == rest;
      forall j: nat | j <= |r| ensures !OccursAt(r, pat, j) {
        if j == 0 {
          assert r[0] == c;
        } else {
          assert !OccursAt(rest, pat, j - 1);
        }
      }
    } else if s != [] {
      var rest := ReplaceAll(s[1..], pat, [c]);
      assert r == [s[0]] + rest;
      ReplaceAllRemovesPattern(s[1..], pat, c);
      OccursAtShift(r, pat);
      assert r[1..] == rest;
      forall j: nat | j <= |r| ensures !OccursAt(r, pat, j) {
        if j == 0 {
          if pat <= r {
            PrefixOfReplaced(s, pat, c, pat);
          }
        } else {
          assert !OccursAt(rest, pat, j - 1);
        }
      }
    }
  }

  /** A character found neither in the input nor in the replacement is not in the output. */
  lemma {:induction false} ReplaceAllKeepsCharAbsent(s: string, pat: string, rep: string, d: char)
    requires pat != [] && d !in s && d !in rep
    ensures d !in ReplaceAll(s, pat, rep)
    decreases |s|
  {
    if pat <= s {
      ReplaceAllKeepsCharAbsent(s[|pat|..], pat, rep, d);
    } else if s != [] {
      ReplaceAllKeepsCharAbsent(s[1..], pat, rep, d);
    }
  }

  // ---------------------------------------------------------------------
  // str.split on one character
  // ---------------------------------------------------------------------

  /** `sep.join(pieces)` */
  function Join(pieces: seq<string>, sep: char): string
    requires |pieces| >= 1
    decreases |pieces|
  {
    if |pieces| == 1 then pieces[0] else pieces[0] + [sep] + Join(pieces[1..], sep)
  }

  /**
   * Python's `s.split(sep)` for a one-character separator: the pieces
   * between separators, at least one, none containing `sep`, and joined
   * back by `sep` they give `s`.
   */
  function Split(s: string, sep: char): (pieces: seq<string>)
    ensures |pieces| >= 1
    ensures forall k :: 0 <= k < |pieces| ==> sep !in pieces[k]
    ensures Join(pieces, sep) == s
    ensures sep in s <==> |pieces| >= 2
    decreases |s|
  {
    if s == [] then [[]]
    else
      var rest := Split(s[1..], sep);
      if s[0] == sep then
        assert ([[]] + rest)[1..] == rest;
        [[]] + rest
      else
        var pieces := [[s[0]] + rest[0]] + rest[1..];
        assert |rest| >= 2 ==> pieces[1..] == rest[1..];
        assert sep in s <==> sep in s[1..] by {
          assert s == [s[0]] + s[1..];
        }
        pieces
  }

  /** Splitting at the first separator: the text before it is the first piece. */
  lemma {:induction false} SplitAtFirst(a: string, sep: char, b: string)
    requires sep !in a
    ensures Split(a + [sep] + b, sep) == [a] + Split(b, sep)
    decreases |a|
  {
    var s := a + [sep] + b;
    if a == [] {
      assert s[1..] == b;
    } else {
      assert s[1..] == a[1..] + [sep] + b;
      SplitAtFirst(a[1..], sep, b);
      assert [a[0]] + a[1..] == a;
    }
  }

  // ---------------------------------------------------------------------
  // int() on decimal digits, and its inverse
  // ---------------------------------------------------------------------

  function DigitValue(c: char): nat
    requires IsDigit(c)
  {
    c as int - '0' as int
  }

  function DigitChar(d: nat): char
    requires d < 10
  {
    ('0' as int + d) as char
  }

  function DecimalValue(s: string): nat
    requires AllDigits(s)
    decreases |s|
  {
    if s == [] then 0 else 10 * DecimalValue(s[..|s| - 1]) + DigitValue(s[|s| - 1])
  }

  /**
   * Python's `int(s)`, restricted to a non-empty run of ASCII digits;
   * any other text makes `int` raise, modelled as `None`.
   */
  function ParseInt(s: string): (r: Option<nat>)
    ensures r.Some? <==> s != [] && AllDigits(s)
  {
    if s != [] && AllDigits(s) then Some(DecimalValue(s)) else None
  }

  /** A leading zero adds nothing to the value: `int("030") == int("30")`. */
  lemma LeadingZero(t: string)
    requires t != [] && AllDigits(t)
    ensures ParseInt("0" + t) == ParseInt(t)
  {
    LeadingZeroValue(t);
  }

  lemma {:induction false} LeadingZeroValue(t: string)
    requires AllDigits(t)
    ensures AllDigits("0" + t) && DecimalValue("0" + t) == DecimalValue(t)
    decreases |t|
  {
    var s := "0" + t;
    assert AllDigits(s) by {
      forall i | 0 <= i < |s| ensures IsDigit(s[i]) {
        if 0 < i { assert s[i] == t[i - 1]; }
      }
    }
    if t != [] {
      var u := t[..|t| - 1];
      assert s[..|s| - 1] == "0" + u;
      assert s[|s| - 1] == t[|t| - 1];
      LeadingZeroValue(u);
    }
  }

  /** Decimal rendering of a natural number, as `str(n)`. */
  function ShowNat(n: nat): string
    decreases n
  {
    if n < 10 then [DigitChar(n)] else ShowNat(n / 10) + [DigitChar(n % 10)]
  }

  /** `int(str(n)) == n`, and `str(n)` is a non-empty run of digits. */
  lemma {:induction false} ParseShowNat(n: nat)
    ensures ShowNat(n) != [] && AllDigits(ShowNat(n))
    ensures ParseInt(ShowNat(n)) == Some(n)
    decreases n
  {
    if n < 10 {
      assert DigitValue(DigitChar(n)) == n;
      assert [DigitChar(n)][..0] == [];
    } else {
      ParseShowNat(n / 10);
      var s := ShowNat(n);
      assert s[..|s| - 1] == ShowNat(n / 10);
      assert AllDigits(s);
      assert DigitValue(DigitChar(n % 10)) == n % 10;
      assert DecimalValue(s) == 10 * (n / 10) + n % 10;
    }
  }

  // ---------------------------------------------------------------------
  // str.lower on ASCII
  // ---------------------------------------------------------------------

  function LowerChar(c: char): char {
    if IsAsciiUpper(c) then (c as int + 32) as char else c
  }

  /** Python's `s.lower()`, restricted to ASCII letters. */
  function Lower(s: string): (r: string)
    ensures |r| == |s|
    ensures forall i :: 0 <= i < |s| ==> r[i] == LowerChar(s[i])
  {
    seq(|s|, i requires 0 <= i < |s| => LowerChar(s[i]))
  }
}
