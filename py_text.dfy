/**
 * The few Python string and integer primitives that route_show.py relies on,
 * written out over `string` (a `seq<char>`): `str.split(sep)`, `str.split()`,
 * `str.strip()` as `int()` applies it, `int()` on decimal digits, `str()` of a
 * natural number, the slice `s[:n]` and `s.replace(c, "")`.
 *
 * Whitespace is the space character only; the callers restrict their inputs
 * to that domain.
 */
module PyText {

  predicate IsDigit(c: char) {
    '0' <= c <= '9'
  }

  predicate IsDigits(s: string) {
    forall k | 0 <= k < |s| :: IsDigit(s[k])
  }

  function DigitValue(c: char): (d: nat)
    requires IsDigit(c)
    ensures d < 10
  {
    (c as int) - ('0' as int)
  }

  function DigitChar(d: nat): (c: char)
    requires d < 10
    ensures IsDigit(c) && DigitValue(c) == d
  {
    (('0' as int) + d) as char
  }

  // ---------------------------------------------------------------------------
  // str.split(sep) with a one-character separator

  /** `s.split(sep)`: the pieces between occurrences of `sep`, empty pieces included. */
  function Split(s: string, sep: char): (parts: seq<string>)
    ensures |parts| >= 1
    ensures forall k | 0 <= k < |parts| :: sep !in parts[k]
    decreases |s|
  {
    if s == [] then [[]]
    else
      var rest := Split(s[1..], sep);
      if s[0] == sep then [[]] + rest
      else [[s[0]] + rest[0]] + rest[1..]
  }

  /** `sep.join(parts)`, the inverse of `Split`. */
  function Join(parts: seq<string>, sep: char): string
    requires |parts| >= 1
    decreases |parts|
  {
    if |parts| == 1 then parts[0] else parts[0] + [sep] + Join(parts[1..], sep)
  }

  lemma {:induction false} SplitThenJoin(s: string, sep: char)
    ensures Join(Split(s, sep), sep) == s
    decreases |s|
  {
    if s != [] {
      var rest := Split(s[1..], sep);
      SplitThenJoin(s[1..], sep);
      if s[0] == sep {
        assert Split(s, sep)[1..] == rest;
      } else {
        var parts := Split(s, sep);
        if |rest| == 1 {
          assert parts == [[s[0]] + rest[0]];
        } else {
          assert parts[1..] == rest[1..];
          assert Join(rest, sep) == rest[0] + [sep] + Join(rest[1..], sep);
        }
      }
    }
  }

  /** A piece without the separator is split into itself. */
  lemma {:induction false} SplitWithoutSeparator(s: string, sep: char)
    requires sep !in s
    ensures Split(s, sep) == [s]
    decreases |s|
  {
    if s != [] {
      SplitWithoutSeparator(s[1..], sep);
      assert [s[0]] + s[1..] == s;
    }
  }

  /** Splitting distributes over a separator placed between two strings. */
  lemma {:induction false} SplitAround(a: string, sep: char, b: string)
    ensures Split(a + [sep] + b, sep) == Split(a, sep) + Split(b, sep)
    decreases |a|
  {
    var s := a + [sep] + b;
    if a == [] {
      assert s == [sep] + b;
      assert s[1..] == b;
    } else {
      assert s[0] == a[0];
      assert s[1..] == a[1..] + [sep] + b;
      SplitAround(a[1..], sep, b);
      var tail := Split(a[1..], sep);
      var right := Split(b, sep);
      var rest := Split(s[1..], sep);
      assert rest == tail + right;
      if a[0] == sep {
        SplitSeparatorFirst(s, sep);
        SplitSeparatorFirst(a, sep);
        assert [[]] + (tail + right) == ([[]] + tail) + right;
      } else {
        SplitOtherFirst(s, sep);
        SplitOtherFirst(a, sep);
        ExtendFirstPiece(a[0], tail, right);
      }
    }
  }

  lemma ExtendFirstPiece(c: char, tail: seq<string>, right: seq<string>)
    requires |tail| >= 1
    ensures [[c] + (tail + right)[0]] + (tail + right)[1..] == ([[c] + tail[0]] + tail[1..]) + right
  {
    assert (tail + right)[1..] == tail[1..] + right;
  }

  lemma SplitSeparatorFirst(s: string, sep: char)
    requires s != [] && s[0] == sep
    ensures Split(s, sep) == [[]] + Split(s[1..], sep)
  {
  }

  lemma SplitOtherFirst(s: string, sep: char)
    requires s != [] && s[0] != sep
    ensures Split(s, sep) == [[s[0]] + Split(s[1..], sep)[0]] + Split(s[1..], sep)[1..]
  {
  }

  /** Joining pieces that hold no separator and splitting again gives the pieces back. */
  lemma {:induction false} JoinThenSplit(parts: seq<string>, sep: char)
    requires |parts| >= 1
    requires forall k | 0 <= k < |parts| :: sep !in parts[k]
    ensures Split(Join(parts, sep), sep) == parts
    decreases |parts|
  {
    SplitWithoutSeparator(parts[0], sep);
    if |parts| > 1 {
      JoinThenSplit(parts[1..], sep);
      SplitAround(parts[0], sep, Join(parts[1..], sep));
      assert [parts[0]] + parts[1..] == parts;
    }
  }

  /** Every character of `s` other than the separator lies in some piece. */
  lemma {:induction false} SplitKeepsCharacters(s: string, sep: char, c: char)
    requires c in s && c != sep
    ensures exists k | 0 <= k < |Split(s, sep)| :: c in Split(s, sep)[k]
    decreases |s|
  {
    var parts := Split(s, sep);
    var rest := Split(s[1..], sep);
    if s[0] == c {
      assert c in parts[0];
    } else {
      SplitKeepsCharacters(s[1..], sep, c);
      var k :| 0 <= k < |rest| && c in rest[k];
      if s[0] == sep {
        assert parts[k + 1] == rest[k];
      } else if k == 0 {
        assert c in parts[0];
      } else {
        assert parts[k] == rest[k];
      }
    }
  }

  // ---------------------------------------------------------------------------
  // str.split() without a separator

  /** The non-empty pieces, in order. */
  function NonEmpty(parts: seq<string>): (r: seq<string>)
    ensures |r| <= |parts|
    ensures forall k | 0 <= k < |r| :: r[k] != []
  {
    if parts == [] then []
    else if parts[0] == [] then NonEmpty(parts[1..])
    else [parts[0]] + NonEmpty(parts[1..])
  }

  lemma {:induction false} NonEmptyAppend(p: seq<string>, q: seq<string>)
    ensures NonEmpty(p + q) == NonEmpty(p) + NonEmpty(q)
    decreases |p|
  {
    if p == [] {
      assert p + q == q;
    } else {
      assert (p + q)[0] == p[0] && (p + q)[1..] == p[1..] + q;
      NonEmptyAppend(p[1..], q);
    }
  }

  /** `s.split()`: the maximal runs of non-space characters, in order. */
  function Tokens(s: string): seq<string> {
    NonEmpty(Split(s, ' '))
  }

  /** A string holding no space and at least one character is one token. */
  lemma SingleToken(t: string)
    requires t != [] && ' ' !in t
    ensures Tokens(t) == [t]
  {
    SplitWithoutSeparator(t, ' ');
  }

  /** A space followed by a word adds that word as the last token. */
  lemma AppendToken(a: string, t: string)
    requires t != [] && ' ' !in t
    ensures Tokens(a + " " + t) == Tokens(a) + [t]
  {
    assert a + " " + t == a + [' '] + t;
    SplitAround(a, ' ', t);
    SplitWithoutSeparator(t, ' ');
    NonEmptyAppend(Split(a, ' '), [t]);
  }

  /** A string with a non-space character holds at least one token. */
  lemma {:induction false} SomeToken(s: string, k: nat)
    requires k < |s| && s[k] != ' '
    ensures |Tokens(s)| >= 1
    decreases |s|
  {
    var parts := Split(s, ' ');
    if s[0] != ' ' {
      assert parts[0] == [s[0]] + Split(s[1..], ' ')[0];
      assert NonEmpty(parts) == [parts[0]] + NonEmpty(parts[1..]);
    } else {
      SomeToken(s[1..], k - 1);
      assert parts[1..] == Split(s[1..], ' ');
    }
  }

  // ---------------------------------------------------------------------------
  // int() on decimal strings

  function TrimStart(s: string): (r: string)
    ensures |r| <= |s| && r == s[|s| - |r|..]
    ensures r != [] ==> r[0] != ' '
  {
    if s != [] && s[0] == ' ' then TrimStart(s[1..]) else s
  }

  function TrimEnd(s: string): (r: string)
    ensures |r| <= |s| && r == s[..|r|]
    ensures r != [] ==> r[|r| - 1] != ' '
  {
    if s != [] && s[|s| - 1] == ' ' then TrimEnd(s[..|s| - 1]) else s
  }

  /** The surrounding whitespace that `int()` ignores. */
  function Strip(s: string): string {
    TrimEnd(TrimStart(s))
  }

  /** Decimal value of a string of digits, most significant digit first. */
  function DigitsValue(s: string): nat
    requires IsDigits(s)
    decreases |s|
  {
    if s == [] then 0 else DigitsValue(s[..|s| - 1]) * 10 + DigitValue(s[|s| - 1])
  }

  /** `int(f)` succeeds on the domain of this model. */
  predicate IsIntLiteral(f: string) {
    var t := Strip(f);
    t != [] && IsDigits(t)
  }

  /** The value `int(f)` returns. */
  function IntValue(f: string): nat
    requires IsIntLiteral(f)
  {
    DigitsValue(Strip(f))
  }

  lemma StripDigits(s: string)
    requires IsDigits(s)
    ensures Strip(s) == s
  {
    if s != [] {
      assert s[0] != ' ' && s[|s| - 1] != ' ';
    }
  }

  /** A field that holds a character other than a digit or a space is not an integer. */
  lemma NotIntLiteral(f: string, c: char)
    requires c in f && c != ' ' && !IsDigit(c)
    ensures !IsIntLiteral(f)
  {
    var k :| 0 <= k < |f| && f[k] == c;
    StripKeeps(f, k);
  }

  /** `Strip` only removes spaces. */
  lemma StripKeeps(f: string, k: nat)
    requires k < |f| && f[k] != ' '
    ensures f[k] in Strip(f)
  {
    var u := TrimStart(f);
    TrimStartDropsSpaces(f);
    var i := k - (|f| - |u|);
    assert 0 <= i < |u| && u[i] == f[k];
    TrimEndDropsSpaces(u);
    assert i < |TrimEnd(u)| && TrimEnd(u)[i] == u[i];
  }

  lemma {:induction false} TrimStartDropsSpaces(s: string)
    ensures forall j | 0 <= j < |s| - |TrimStart(s)| :: s[j] == ' '
    decreases |s|
  {
    if s != [] && s[0] == ' ' {
      TrimStartDropsSpaces(s[1..]);
    }
  }

  lemma {:induction false} TrimEndDropsSpaces(s: string)
    ensures forall j | |TrimEnd(s)| <= j < |s| :: s[j] == ' '
    decreases |s|
  {
    if s != [] && s[|s| - 1] == ' ' {
      TrimEndDropsSpaces(s[..|s| - 1]);
    }
  }

  // ---------------------------------------------------------------------------
  // str() of a natural number

  /** `str(n)`: decimal digits, no leading zero. */
  function NatToString(n: nat): (r: string)
    ensures r != [] && IsDigits(r)
    ensures r[0] == '0' <==> n == 0
    ensures n == 0 ==> r == "0"
    decreases n
  {
    if n < 10 then [DigitChar(n)] else NatToString(n / 10) + [DigitChar(n % 10)]
  }

  lemma {:induction false} NatToStringRoundTrip(n: nat)
    ensures DigitsValue(NatToString(n)) == n
    decreases n
  {
    var r := NatToString(n);
    if n >= 10 {
      NatToStringRoundTrip(n / 10);
      assert r[..|r| - 1] == NatToString(n / 10);
    } else {
      assert r[..0] == [];
    }
  }

  lemma NatToStringInjective(m: nat, n: nat)
    ensures NatToString(m) == NatToString(n) <==> m == n
  {
    NatToStringRoundTrip(m);
    NatToStringRoundTrip(n);
  }

  // ---------------------------------------------------------------------------
  // Slicing and replacement

  /** The slice `s[:n]`. */
  function Prefix(s: string, n: nat): (r: string)
    ensures |r| == (if |s| < n then |s| else n)
    ensures r == s[..|r|]
  {
    if |s| <= n then s else s[..n]
  }

  /** `s.replace(c, "")`. */
  function Remove(s: string, c: char): (r: string)
    ensures c !in r
    ensures |r| <= |s|
    ensures forall x | x != c :: multiset(r)[x] == multiset(s)[x]
  {
    if s == [] then []
    else
      assert s == [s[0]] + s[1..];
      if s[0] == c then Remove(s[1..], c) else [s[0]] + Remove(s[1..], c)
  }

  lemma {:induction false} RemoveAbsent(s: string, c: char)
    requires c !in s
    ensures Remove(s, c) == s
    decreases |s|
  {
    if s != [] {
      RemoveAbsent(s[1..], c);
      assert [s[0]] + s[1..] == s;
    }
  }

  lemma {:induction false} RemoveAppend(a: string, b: string, c: char)
    ensures Remove(a + b, c) == Remove(a, c) + Remove(b, c)
    decreases |a|
  {
    if a == [] {
      assert a + b == b;
    } else {
      assert (a + b)[0] == a[0] && (a + b)[1..] == a[1..] + b;
      RemoveAppend(a[1..], b, c);
    }
  }
}
