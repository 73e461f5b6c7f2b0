/**
 * The JavaScript string built-ins that session1/example2.js leans on:
 * `String(n)` for an integer, `Number(s)` for the strings that code can
 * produce, `split`/`join` on a one-character separator and
 * `replace` with a string pattern (first occurrence only).
 */
module JsStrings {
  import opened Wrappers

  predicate IsDigit(c: char) { '0' <= c <= '9' }

  predicate AllDigits(s: string) { forall i :: 0 <= i < |s| ==> IsDigit(s[i]) }

  function DigitChar(d: nat): (c: char)
    requires d < 10
    ensures IsDigit(c) && c as int - '0' as int == d
  {
    ('0' as int + d) as char
  }

  function DigitOf(c: char): (d: nat)
    requires IsDigit(c)
    ensures d < 10 && DigitChar(d) == c
  {
    c as int - '0' as int
  }

  // ------------------------------------------------------------------
  // String(n) and Number(s)
  // ------------------------------------------------------------------

  /** Decimal digits of n, no leading zero: what String(n) gives for n >= 0. */
  function NatToString(n: nat): (s: string)
    ensures AllDigits(s) && |s| >= 1
    ensures |s| == 1 <==> n < 10
    ensures 10 <= n < 100 ==> |s| == 2
    ensures s[0] == '0' <==> n == 0
  {
    if n < 10 then [DigitChar(n)] else NatToString(n / 10) + [DigitChar(n % 10)]
  }

  /** String(i) for an integer i. */
  function NumberToString(i: int): string
  {
    if i < 0 then "-" + NatToString(-i) else NatToString(i)
  }

  /** The value of a string of decimal digits, most significant first; "" is 0. */
  function DigitsValue(s: string): nat
    requires AllDigits(s)
  {
    if s == [] then 0 else 10 * DigitsValue(s[..|s| - 1]) + DigitOf(s[|s| - 1])
  }

  /**
   * Number(s) for the strings this model meets: an optional '-' followed by
   * decimal digits ("" and "007" included). None stands for NaN.
   */
  function ToNumber(s: string): Option<int>
  {
    if AllDigits(s) then Some(DigitsValue(s))
    else if |s| > 1 && s[0] == '-' && AllDigits(s[1..]) then Some(-(DigitsValue(s[1..]) as int))
    else None
  }

  lemma {:induction false} NatToStringRoundTrip(n: nat)
    ensures DigitsValue(NatToString(n)) == n
  {
    if n >= 10 {
      var s := NatToString(n);
      assert s[..|s| - 1] == NatToString(n / 10);
      NatToStringRoundTrip(n / 10);
    }
  }

  /** Number(String(i)) == i: rendering an integer and reading it back loses nothing. */
  lemma NumberRoundTrip(i: int)
    ensures ToNumber(NumberToString(i)) == Some(i)
  {
    var s := NumberToString(i);
    if i < 0 {
      var digits := NatToString(-i);
      assert s == "-" + digits;
      assert !IsDigit(s[0]) && !AllDigits(s);
      assert s[1..] == digits;
      NatToStringRoundTrip(-i);
    } else {
      NatToStringRoundTrip(i);
    }
  }

  /** A leading zero does not change the value of a digit string. */
  lemma {:induction false} LeadingZero(s: string)
    requires AllDigits(s)
    ensures AllDigits("0" + s) && DigitsValue("0" + s) == DigitsValue(s)
  {
    if s != [] {
      var t := "0" + s;
      assert t[..|t| - 1] == "0" + s[..|s| - 1];
      assert t[|t| - 1] == s[|s| - 1];
      LeadingZero(s[..|s| - 1]);
    }
  }

  // ------------------------------------------------------------------
  // split and join
  // ------------------------------------------------------------------

  /** s.split(sep): the pieces between separators; never empty ("" gives [""]). */
  function Split(s: string, sep: char): (parts: seq<string>)
    ensures |parts| >= 1
    ensures forall i :: 0 <= i < |parts| ==> sep !in parts[i]
  {
    if s == [] then [[]]
    else if s[0] == sep then [[]] + Split(s[1..], sep)
    else
      var rest := Split(s[1..], sep);
      [[s[0]] + rest[0]] + rest[1..]
  }

  /** parts.join(sep). */
  function Join(parts: seq<string>, sep: char): string
  {
    if |parts| == 0 then []
    else if |parts| == 1 then parts[0]
    else parts[0] + [sep] + Join(parts[1..], sep)
  }

  /** A string without the separator splits into itself. */
  lemma {:induction false} SplitNoSeparator(s: string, sep: char)
    requires sep !in s
    ensures Split(s, sep) == [s]
  {
    if s != [] {
      assert s[0] != sep;
      assert sep !in s[1..];
      SplitNoSeparator(s[1..], sep);
      assert [s[0]] + s[1..] == s;
    }
  }

  /** A split into several pieces, or into one piece other than s, means s holds the separator. */
  lemma SplitManyParts(s: string, sep: char)
    ensures |Split(s, sep)| > 1 || Split(s, sep)[0] != s ==> sep in s
  {
    if sep !in s {
      SplitNoSeparator(s, sep);
    }
  }

  /** The pieces of [c] + t, given the pieces `rest` of t. */
  function ConsPieces(c: char, rest: seq<string>, sep: char): seq<string>
    requires |rest| >= 1
  {
    if c == sep then [[]] + rest else [[c] + rest[0]] + rest[1..]
  }

  /** How Split treats a leading character. */
  lemma SplitCons(c: char, t: string, sep: char)
    ensures Split([c] + t, sep) == ConsPieces(c, Split(t, sep), sep)
  {
    assert ([c] + t)[0] == c && ([c] + t)[1..] == t;
  }

  /** A leading character only touches the first piece. */
  lemma ConsPiecesAppend(c: char, left: seq<string>, right: seq<string>, sep: char)
    requires |left| >= 1
    ensures ConsPieces(c, left + right, sep) == ConsPieces(c, left, sep) + right
  {
    assert (left + right)[0] == left[0];
    assert (left + right)[1..] == left[1..] + right;
    if c == sep {
      assert [[]] + (left + right) == ([[]] + left) + right;
    } else {
      assert [[c] + left[0]] + (left[1..] + right) == ([[c] + left[0]] + left[1..]) + right;
    }
  }

  /** A common leading character keeps a split-suffix relation between two strings. */
  lemma SplitConsAppend(c: char, t: string, u: string, right: seq<string>, sep: char)
    requires Split(t, sep) == Split(u, sep) + right
    ensures Split([c] + t, sep) == Split([c] + u, sep) + right
  {
    SplitCons(c, t, sep);
    SplitCons(c, u, sep);
    ConsPiecesAppend(c, Split(u, sep), right, sep);
  }

  /** Splitting at one separator splits each side on its own. */
  lemma {:induction false} SplitAround(a: string, b: string, sep: char)
    ensures Split(a + [sep] + b, sep) == Split(a, sep) + Split(b, sep)
  {
    if a == [] {
      SplitCons(sep, b, sep);
      assert a + [sep] + b == [sep] + b;
    } else {
      var c, tail := a[0], a[1..] + [sep] + b;
      SplitAround(a[1..], b, sep);
      SplitConsAppend(c, tail, a[1..], Split(b, sep), sep);
      assert a + [sep] + b == [c] + tail;
      assert a == [c] + a[1..];
    }
  }

  /** Splitting a join gives the parts back, when no part holds the separator. */
  lemma {:induction false} SplitJoin(parts: seq<string>, sep: char)
    requires |parts| >= 1
    requires forall i :: 0 <= i < |parts| ==> sep !in parts[i]
    ensures Split(Join(parts, sep), sep) == parts
  {
    SplitNoSeparator(parts[0], sep);
    if |parts| > 1 {
      SplitJoin(parts[1..], sep);
      SplitAround(parts[0], Join(parts[1..], sep), sep);
      assert [parts[0]] + parts[1..] == parts;
    }
  }

  /** Joining the pieces of a split gives the string back. */
  lemma {:induction false} JoinSplit(s: string, sep: char)
    ensures Join(Split(s, sep), sep) == s
  {
    if s != [] {
      JoinSplit(s[1..], sep);
      var rest := Split(s[1..], sep);
      if s[0] == sep {
        assert Split(s, sep)[1..] == rest;
      } else {
        var parts := Split(s, sep);
        assert parts[1..] == rest[1..];
        if |rest| > 1 {
          assert Join(rest, sep) == rest[0] + [sep] + Join(rest[1..], sep);
        }
      }
    }
  }

  // ------------------------------------------------------------------
  // replace
  // ------------------------------------------------------------------

  /** pat occurs in s starting at index i. */
  predicate OccursAt(s: string, pat: string, i: int)
  {
    0 <= i && i + |pat| <= |s| && s[i..i + |pat|] == pat
  }

  /** s.replace(pat, rep) with a string pattern: only the first occurrence is replaced. */
  function ReplaceFirst(s: string, pat: string, rep: string): (r: string)
    ensures |r| <= |s| + |rep|
    ensures |pat| > |s| ==> r == s
  {
    if pat <= s then rep + s[|pat|..]
    else if s == [] then s
    else [s[0]] + ReplaceFirst(s[1..], pat, rep)
  }

  /** pat <= s says exactly that pat occurs at index 0. */
  lemma PrefixOccurs(s: string, pat: string)
    ensures pat <= s <==> OccursAt(s, pat, 0)
  {
    if |pat| <= |s| {
      assert s[0..|pat|] == s[..|pat|];
    }
  }

  /** An occurrence in s[1..] at i is an occurrence in s at i + 1, and back. */
  lemma OccursAtTail(s: string, pat: string, i: nat)
    requires s != []
    ensures OccursAt(s[1..], pat, i) <==> OccursAt(s, pat, i + 1)
  {
    if 0 <= i && i + |pat| <= |s| - 1 {
      assert s[1..][i..i + |pat|] == s[i + 1..i + 1 + |pat|];
    }
  }

  /** No occurrence in s before i + 1 leaves none in s[1..] before i. */
  lemma NoneBeforeTail(s: string, pat: string, i: nat)
    requires s != []
    requires forall j :: 0 <= j < i + 1 ==> !OccursAt(s, pat, j)
    ensures forall j :: 0 <= j < i ==> !OccursAt(s[1..], pat, j)
  {
    forall j | 0 <= j < i
      ensures !OccursAt(s[1..], pat, j)
    {
      OccursAtTail(s, pat, j);
    }
  }

  /** Where pat does not start s, replace keeps the first character and moves on. */
  lemma ReplaceFirstStep(s: string, pat: string, rep: string)
    requires s != [] && !OccursAt(s, pat, 0)
    ensures ReplaceFirst(s, pat, rep) == [s[0]] + ReplaceFirst(s[1..], pat, rep)
  {
    PrefixOccurs(s, pat);
  }

  /** The occurrence that starts first is the one replaced. */
  lemma {:induction false} ReplaceFirstAt(s: string, pat: string, rep: string, i: int)
    requires OccursAt(s, pat, i)
    requires forall j :: 0 <= j < i ==> !OccursAt(s, pat, j)
    ensures ReplaceFirst(s, pat, rep) == s[..i] + rep + s[i + |pat|..]
  {
    if i == 0 {
      PrefixOccurs(s, pat);
      assert s[..i] == [];
    } else {
      var t := s[1..];
      OccursAtTail(s, pat, i - 1);
      NoneBeforeTail(s, pat, i - 1);
      ReplaceFirstAt(t, pat, rep, i - 1);
      ReplaceFirstStep(s, pat, rep);
      var head, tail := s[1..i], s[i + |pat|..];
      assert t[..i - 1] == head;
      assert t[i - 1 + |pat|..] == tail;
      assert [s[0]] + head == s[..i];
      calc {
        ReplaceFirst(s, pat, rep);
        [s[0]] + (head + rep + tail);
        ([s[0]] + head) + rep + tail;
      }
    }
  }

  /**
   * When the text before an occurrence of pat cannot start a match (it does
   * not contain pat's first character), that occurrence is the one replaced.
   */
  lemma {:induction false} ReplaceFirstAfter(p: string, pat: string, rest: string, rep: string)
    requires |pat| > 0 && pat[0] !in p
    ensures ReplaceFirst(p + pat + rest, pat, rep) == p + rep + rest
  {
    var s := p + pat + rest;
    if p == [] {
      assert s == pat + rest;
      assert s[|pat|..] == rest;
    } else {
      assert s[0] == p[0] != pat[0];
      assert s[1..] == p[1..] + pat + rest;
      ReplaceFirstAfter(p[1..], pat, rest, rep);
      assert [p[0]] + p[1..] == p;
    }
  }

  /** No occurrence: replace leaves the string as it is. */
  lemma {:induction false} ReplaceFirstAbsent(s: string, pat: string, rep: string)
    requires forall i :: !OccursAt(s, pat, i)
    ensures ReplaceFirst(s, pat, rep) == s
  {
    PrefixOccurs(s, pat);
    if s != [] {
      forall i
        ensures !OccursAt(s[1..], pat, i)
      {
        if i >= 0 {
          OccursAtTail(s, pat, i);
        }
      }
      ReplaceFirstAbsent(s[1..], pat, rep);
      assert [s[0]] + s[1..] == s;
    }
  }

  /** "h:" holds no "hh": replacing "hh" leaves it alone. */
  lemma ReplaceFirstAbsentExample()
    ensures ReplaceFirst("h:", "hh", "X") == "h:"
  {
    forall i
      ensures !OccursAt("h:", "hh", i)
    {
      if 0 <= i && i + 2 <= 2 {
        assert "h:"[i..i + 2] == "h:";
      }
    }
    ReplaceFirstAbsent("h:", "hh", "X");
  }
}
