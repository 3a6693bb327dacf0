/**
 * The few Python string builtins the tree widget relies on, on `seq<char>`:
 * `str.split` with a one-character separator, its inverse `sep.join`,
 * `str.endswith`, and `int()` on a decimal field. Exceptions that these
 * (and dictionary lookups) raise are values of `PyError`.
 */
module PyStr {
  import opened Wrappers

  /** The exceptions the modelled code can raise. */
  datatype PyError =
    | IndexError             // a list index past the end
    | ValueError             // `int()` of text that is not an integer
    | KeyError(key: string)  // a name missing from a dictionary

  /** Number of occurrences of `c` in `s`. */
  function Count(s: string, c: char): (n: nat)
    ensures n <= |s|
    ensures n == 0 <==> c !in s
  {
    if s == [] then 0 else (if s[0] == c then 1 else 0) + Count(s[1..], c)
  }

  /**
   * `s.split(sep)`: the maximal runs of `s` that do not contain `sep`, in
   * order, one more than there are separators (so `"".split(sep) == [""]`).
   */
  function Split(s: string, sep: char): (pieces: seq<string>)
    ensures |pieces| == Count(s, sep) + 1
    ensures forall i :: 0 <= i < |pieces| ==> sep !in pieces[i]
    ensures forall i, c :: 0 <= i < |pieces| && c in pieces[i] ==> c in s
  {
    if s == [] then [""]
    else
      var rest := Split(s[1..], sep);
      assert forall c :: c in s[1..] ==> c in s;
      if s[0] == sep then [""] + rest
      else [[s[0]] + rest[0]] + rest[1..]
  }

  /** `sep.join(pieces)` for a non-empty list of pieces. */
  function Join(pieces: seq<string>, sep: char): string
    requires |pieces| >= 1
  {
    if |pieces| == 1 then pieces[0]
    else pieces[0] + [sep] + Join(pieces[1..], sep)
  }

  /** Joining the pieces of a split gives back the original text. */
  lemma {:induction false} JoinSplit(s: string, sep: char)
    ensures Join(Split(s, sep), sep) == s
  {
    if s != [] {
      JoinSplit(s[1..], sep);
      var rest := Split(s[1..], sep);
      if s[0] == sep {
        assert Split(s, sep) == [""] + rest;
        assert ([""] + rest)[1..] == rest;
      } else {
        var pieces := [[s[0]] + rest[0]] + rest[1..];
        assert Split(s, sep) == pieces;
        if |rest| == 1 {
          assert Join(rest, sep) == rest[0];
        } else {
          assert pieces[1..] == rest[1..];
          assert Join(rest, sep) == rest[0] + [sep] + Join(rest[1..], sep);
        }
      }
    }
  }

  /** Text without a separator glues onto the first piece of what follows it. */
  lemma {:induction false} SplitPrepend(a: string, t: string, sep: char)
    requires sep !in a
    ensures Split(a + t, sep) == [a + Split(t, sep)[0]] + Split(t, sep)[1..]
  {
    if a == [] {
      assert a + t == t;
      var r := Split(t, sep);
      assert a + r[0] == r[0];
      assert r == [r[0]] + r[1..];
    } else {
      assert (a + t)[1..] == a[1..] + t;
      SplitPrepend(a[1..], t, sep);
      assert [a[0]] + (a[1..] + Split(t, sep)[0]) == a + Split(t, sep)[0];
    }
  }

  /**
   * When `t` is empty or starts with the separator, the first piece of
   * `a + t` is exactly `a` and the remaining pieces are those of `t[1..]`.
   */
  lemma SplitAt(a: string, t: string, sep: char)
    requires sep !in a
    requires t == [] || t[0] == sep
    ensures Split(a + t, sep)[0] == a
    ensures t == [] ==> Split(a + t, sep) == [a]
    ensures t != [] ==> Split(a + t, sep)[1..] == Split(t[1..], sep)
  {
    SplitPrepend(a, t, sep);
    if t == [] {
      assert a + Split(t, sep)[0] == a;
    } else {
      assert Split(t, sep) == [""] + Split(t[1..], sep);
      assert a + Split(t, sep)[0] == a;
    }
  }

  /**
   * The first two pieces of `a + [sep] + b + t`, when neither `a` nor `b`
   * holds the separator and `t` is empty or starts with it.
   */
  lemma SplitFirstTwo(a: string, b: string, t: string, sep: char)
    requires sep !in a && sep !in b
    requires t == [] || t[0] == sep
    ensures var pieces := Split(a + [sep] + b + t, sep);
      |pieces| >= 2 && pieces[0] == a && pieces[1] == b
  {
    var u := [sep] + b + t;
    assert a + [sep] + b + t == a + u;
    SplitAt(a, u, sep);
    assert u[1..] == b + t;
    SplitAt(b, t, sep);
  }

  /** Splitting a join of separator-free pieces gives back the pieces. */
  lemma {:induction false} SplitJoin(pieces: seq<string>, sep: char)
    requires |pieces| >= 1
    requires forall i :: 0 <= i < |pieces| ==> sep !in pieces[i]
    ensures Split(Join(pieces, sep), sep) == pieces
  {
    if |pieces| == 1 {
      SplitAt(pieces[0], [], sep);
      assert pieces[0] + [] == pieces[0];
    } else {
      var t := [sep] + Join(pieces[1..], sep);
      assert Join(pieces, sep) == pieces[0] + t;
      SplitAt(pieces[0], t, sep);
      assert t[1..] == Join(pieces[1..], sep);
      SplitJoin(pieces[1..], sep);
      var r := Split(pieces[0] + t, sep);
      assert r == [r[0]] + r[1..];
    }
  }

  /** `s.endswith(suffix)`; every string ends with the empty string. */
  predicate EndsWith(s: string, suffix: string)
    ensures EndsWith(s, suffix) ==> |suffix| <= |s|
    ensures suffix == [] ==> EndsWith(s, suffix)
    ensures suffix == s ==> EndsWith(s, suffix)
  {
    |suffix| <= |s| && s[|s| - |suffix|..] == suffix
  }

  /** `s` ends with `suffix` exactly when `s` is some text followed by `suffix`. */
  lemma EndsWithConcat(s: string, suffix: string)
    ensures EndsWith(s, suffix) <==> exists prefix: string :: s == prefix + suffix
  {
    if EndsWith(s, suffix) {
      var prefix := s[..|s| - |suffix|];
      assert s == prefix + suffix;
    }
    if exists prefix: string :: s == prefix + suffix {
      var prefix: string :| s == prefix + suffix;
      assert s[|prefix|..] == suffix;
    }
  }

  predicate IsDigit(c: char) {
    '0' <= c <= '9'
  }

  /** A non-empty run of ASCII decimal digits. */
  predicate IsDecimal(s: string) {
    s != [] && forall i :: 0 <= i < |s| ==> IsDigit(s[i])
  }

  /** The value of a string of decimal digits, most significant first. */
  function DigitsValue(s: string): nat
    requires forall i :: 0 <= i < |s| ==> IsDigit(s[i])
  {
    if s == [] then 0
    else
      var last := s[|s| - 1];
      assert IsDigit(last);
      DigitsValue(s[..|s| - 1]) * 10 + (last as int - '0' as int)
  }

  /** The decimal digit character for `d`. */
  function Digit(d: nat): (c: char)
    requires d < 10
    ensures IsDigit(c) && c as int - '0' as int == d
  {
    ('0' as int + d) as char
  }

  /** `str(n)` for a natural number: its shortest decimal spelling. */
  function DecimalString(n: nat): (s: string)
    ensures IsDecimal(s)
    ensures s[0] == '0' ==> n == 0 && s == "0"
  {
    if n < 10 then [Digit(n)] else DecimalString(n / 10) + [Digit(n % 10)]
  }

  /**
   * `int(s)` on the field of an ancestry. Only a non-empty run of ASCII
   * digits is an integer here; anything else raises `ValueError`.
   */
  function ParseInt(s: string): (r: Result<nat, PyError>)
    ensures r.Err? ==> r.error == ValueError
  {
    if IsDecimal(s) then Ok(DigitsValue(s)) else Err(ValueError)
  }

  /** Spelling a number in decimal and reading it back gives the number. */
  lemma {:induction false} ParseDecimalString(n: nat)
    ensures ParseInt(DecimalString(n)) == Ok(n)
  {
    var s := DecimalString(n);
    if n >= 10 {
      ParseDecimalString(n / 10);
      assert s[..|s| - 1] == DecimalString(n / 10);
      assert DigitsValue(s) == (n / 10) * 10 + n % 10;
    }
  }

  /** A value of zero is spelt with zeros only. */
  lemma {:induction false} ZeroValueAllZeros(s: string)
    requires forall i :: 0 <= i < |s| ==> IsDigit(s[i])
    requires DigitsValue(s) == 0
    ensures forall i :: 0 <= i < |s| ==> s[i] == '0'
  {
    if s != [] {
      ZeroValueAllZeros(s[..|s| - 1]);
      forall i | 0 <= i < |s| ensures s[i] == '0' {
        if i < |s| - 1 {
          assert s[i] == s[..|s| - 1][i];
        }
      }
    }
  }

  /** Reading a decimal without leading zeros and spelling it again gives the same text. */
  lemma {:induction false} DecimalStringOfParse(s: string)
    requires IsDecimal(s)
    requires s[0] == '0' ==> |s| == 1
    ensures DecimalString(DigitsValue(s)) == s
  {
    if |s| > 1 {
      var init := s[..|s| - 1];
      assert init[0] == s[0];
      DecimalStringOfParse(init);
      if DigitsValue(init) == 0 {
        ZeroValueAllZeros(init);
        assert false;
      }
      var n := DigitsValue(s);
      assert n / 10 == DigitsValue(init) && n % 10 == (s[|s| - 1] as int - '0' as int);
      assert s == init + [s[|s| - 1]];
    }
  }
}
