/**
 * The Python string operations the mask generator relies on, over `string`
 * (a `seq<char>`): `str.split(sep)` on a one-character separator,
 * `sep.join(parts)`, `filter(None, parts)` on a list of strings, and
 * `str(n)` for a natural number.
 */
module Text {
  import opened Counting

  predicate IsDigit(c: char) {
    '0' <= c <= '9'
  }

  predicate AllDigits(s: string) {
    forall i :: 0 <= i < |s| ==> IsDigit(s[i])
  }

  /** A non-empty string of decimal digits. */
  predicate IsDecimal(s: string) {
    |s| > 0 && AllDigits(s)
  }

  predicate EndsWith(s: string, suffix: string) {
    |suffix| <= |s| && s[|s| - |suffix|..] == suffix
  }

  function DigitChar(d: nat): (c: char)
    requires d < 10
    ensures IsDigit(c)
  {
    ('0' as int + d) as char
  }

  /** `str(n)`: the decimal digits of `n`, most significant first, without leading zeros. */
  function NatToString(n: nat): (s: string)
    ensures IsDecimal(s)
    ensures s[0] == '0' <==> n == 0
    decreases n
  {
    if n < 10 then [DigitChar(n)] else NatToString(n / 10) + [DigitChar(n % 10)]
  }

  /** The value of a string of decimal digits (the empty string reads as 0). */
  function ParseDecimal(s: string): nat
    requires AllDigits(s)
  {
    if s == [] then 0
    else ParseDecimal(s[..|s| - 1]) * 10 + (s[|s| - 1] as int - '0' as int)
  }

  lemma {:induction false} ParseNatToString(n: nat)
    ensures ParseDecimal(NatToString(n)) == n
    decreases n
  {
    if n >= 10 {
      var p := NatToString(n / 10);
      ParseNatToString(n / 10);
      assert (p + [DigitChar(n % 10)])[..|p|] == p;
    }
  }

  /** Distinct numbers print as distinct strings. */
  lemma NatToStringInjective(m: nat, n: nat)
    requires NatToString(m) == NatToString(n)
    ensures m == n
  {
    ParseNatToString(m);
    ParseNatToString(n);
  }

  /** `sep.join(parts)`. */
  function Join(parts: seq<string>, sep: string): string
  {
    if |parts| == 0 then ""
    else if |parts| == 1 then parts[0]
    else Join(parts[..|parts| - 1], sep) + sep + parts[|parts| - 1]
  }

  /** Joining one more part adds the separator and the part, unless it is the first. */
  lemma JoinSnoc(parts: seq<string>, last: string, sep: string)
    ensures Join(parts + [last], sep) == if parts == [] then last else Join(parts, sep) + sep + last
  {
    assert (parts + [last])[..|parts|] == parts;
  }

  /**
   * `s.split(sep)`: the maximal runs of `s` between occurrences of `sep`,
   * one more than there are separators; the empty string gives `[""]`.
   */
  function Split(s: string, sep: char): (parts: seq<string>)
    ensures |parts| >= 1
    decreases |s|
  {
    if s == [] then [""]
    else
      var init := Split(s[..|s| - 1], sep);
      var c := s[|s| - 1];
      if c == sep then init + [""]
      else init[..|init| - 1] + [init[|init| - 1] + [c]]
  }

  /** A split gives one piece more than there are separators, and no piece holds a separator. */
  lemma {:induction false} SplitPieces(s: string, sep: char)
    ensures |Split(s, sep)| == Occurrences(s, sep) + 1
    ensures forall i :: 0 <= i < |Split(s, sep)| ==> sep !in Split(s, sep)[i]
    decreases |s|
  {
    if s != [] {
      var s', c := s[..|s| - 1], s[|s| - 1];
      assert s == s' + [c];
      SplitPieces(s', sep);
      SplitSnoc(s', c, sep);
      var init := Split(s', sep);
      if c != sep {
        assert sep !in init[|init| - 1] + [c];
      }
    }
  }

  /** One more character either starts a new piece (a separator) or extends the last piece. */
  lemma SplitSnoc(s: string, c: char, sep: char)
    ensures var init := Split(s, sep);
            Split(s + [c], sep) == if c == sep then init + [""] else init[..|init| - 1] + [init[|init| - 1] + [c]]
  {
    assert (s + [c])[..|s|] == s;
  }

  /** Joining the pieces of a split with the separator rebuilds the string. */
  lemma {:induction false} JoinSplit(s: string, sep: char)
    ensures Join(Split(s, sep), [sep]) == s
    decreases |s|
  {
    if s != [] {
      var s', c := s[..|s| - 1], s[|s| - 1];
      assert s == s' + [c];
      var init := Split(s', sep);
      var n := |init|;
      assert Join(init, [sep]) == s' by {
        JoinSplit(s', sep);
      }
      if c == sep {
        assert Split(s, sep) == init + [""] by {
          SplitSnoc(s', c, sep);
        }
        JoinSnoc(init, "", [sep]);
      } else {
        var front, last := init[..n - 1], init[n - 1];
        assert Split(s, sep) == front + [last + [c]] by {
          SplitSnoc(s', c, sep);
        }
        assert Join(init, [sep]) == if front == [] then last else Join(front, [sep]) + [sep] + last by {
          assert init == front + [last];
          JoinSnoc(front, last, [sep]);
        }
        JoinSnoc(front, last + [c], [sep]);
      }
    }
  }

  /** Appending text without a separator extends the last piece of the split. */
  lemma {:induction false} SplitAppend(s: string, t: string, sep: char)
    requires sep !in t
    ensures var p := Split(s, sep);
            Split(s + t, sep) == p[..|p| - 1] + [p[|p| - 1] + t]
    decreases |t|
  {
    var p := Split(s, sep);
    var n := |p|;
    if t == [] {
      assert s + t == s;
      assert p[n - 1] + t == p[n - 1];
      assert p == p[..n - 1] + [p[n - 1]];
    } else {
      var t', c := t[..|t| - 1], t[|t| - 1];
      assert t == t' + [c];
      assert c != sep by {
        assert c in t;
      }
      var init := Split(s + t', sep);
      assert init == p[..n - 1] + [p[n - 1] + t'] by {
        assert sep !in t';
        SplitAppend(s, t', sep);
      }
      assert Split(s + t, sep) == init[..n - 1] + [init[n - 1] + [c]] by {
        assert s + t == (s + t') + [c];
        SplitSnoc(s + t', c, sep);
      }
      assert init[..n - 1] == p[..n - 1];
      assert init[n - 1] + [c] == p[n - 1] + t;
    }
  }

  /** Splitting a join of separator-free pieces gives the pieces back. */
  lemma {:induction false} SplitJoin(parts: seq<string>, sep: char)
    requires |parts| >= 1
    requires forall i :: 0 <= i < |parts| ==> sep !in parts[i]
    ensures Split(Join(parts, [sep]), sep) == parts
    decreases |parts|
  {
    var n := |parts|;
    if n == 1 {
      SplitAppend("", parts[0], sep);
      assert "" + parts[0] == parts[0];
    } else {
      var init, last := parts[..n - 1], parts[n - 1];
      var prefix := Join(init, [sep]);
      assert Split(prefix + [sep], sep) == init + [""] by {
        SplitJoin(init, sep);
        SplitAfterSeparator(prefix, sep);
      }
      assert Split(prefix + [sep] + last, sep) == init + [last] by {
        assert sep !in last;
        SplitAppend(prefix + [sep], last, sep);
        assert (init + [""])[..n - 1] == init;
        assert "" + last == last;
      }
      assert Join(parts, [sep]) == prefix + [sep] + last by {
        JoinLast(parts, [sep]);
      }
      assert parts == init + [last];
    }
  }

  lemma SplitAfterSeparator(s: string, sep: char)
    ensures Split(s + [sep], sep) == Split(s, sep) + [""]
  {
    assert (s + [sep])[..|s|] == s;
  }

  lemma JoinLast(parts: seq<string>, sep: string)
    requires |parts| >= 2
    ensures Join(parts, sep) == Join(parts[..|parts| - 1], sep) + sep + parts[|parts| - 1]
  {
  }

  /** `list(filter(None, parts))`: the parts that are not the empty string, in order. */
  function NonEmpty(parts: seq<string>): (kept: seq<string>)
    ensures |kept| <= |parts|
    ensures forall i :: 0 <= i < |kept| ==> kept[i] != ""
  {
    if parts == [] then []
    else (if parts[0] == "" then [] else [parts[0]]) + NonEmpty(parts[1..])
  }

  /** A single part is kept exactly when it is non-empty. */
  lemma NonEmptySingle(p: string)
    ensures NonEmpty([p]) == if p == "" then [] else [p]
  {
  }

  /** Filtering distributes over concatenation, so it keeps order and repeats. */
  lemma {:induction false} NonEmptyAppend(a: seq<string>, b: seq<string>)
    ensures NonEmpty(a + b) == NonEmpty(a) + NonEmpty(b)
  {
    if a != [] {
      assert (a + b)[1..] == a[1..] + b;
      NonEmptyAppend(a[1..], b);
    } else {
      assert a + b == b;
    }
  }

  /** Filtering keeps exactly the non-empty parts. */
  lemma {:induction false} NonEmptyMembers(parts: seq<string>)
    ensures forall p :: p in NonEmpty(parts) <==> p in parts && p != ""
  {
    if parts != [] {
      assert parts == [parts[0]] + parts[1..];
      NonEmptyMembers(parts[1..]);
    }
  }
}
