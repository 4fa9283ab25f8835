/**
 * Character-level helpers for the CSV text: splitting on a separator and joining back,
 * line assembly, and decimal integers as the data library writes and reads them.
 */
module Text {
  import opened Wrappers

  /** Splits `s` at every occurrence of `sep`; the pieces never contain `sep`. */
  function Split(s: string, sep: char): (r: seq<string>)
    ensures |r| >= 1
    ensures forall k :: 0 <= k < |r| ==> sep !in r[k]
    decreases |s|
  {
    if |s| == 0 then [""]
    else
      var rest := Split(s[1..], sep);
      if s[0] == sep then [""] + rest
      else [[s[0]] + rest[0]] + rest[1..]
  }

  /** Glues the fields together with `sep` between consecutive ones. */
  function Join(fields: seq<string>, sep: char): string
    requires |fields| >= 1
  {
    if |fields| == 1 then fields[0] else fields[0] + [sep] + Join(fields[1..], sep)
  }

  /** A join starts with its first field. */
  lemma JoinHead(fields: seq<string>, sep: char)
    requires |fields| >= 1
    ensures |Join(fields, sep)| >= |fields[0]| && Join(fields, sep)[..|fields[0]|] == fields[0]
  {
  }

  lemma {:induction false} SplitWithoutSep(a: string, sep: char)
    requires sep !in a
    ensures Split(a, sep) == [a]
  {
    if |a| > 0 {
      SplitWithoutSep(a[1..], sep);
      assert [a[0]] + a[1..] == a;
    }
  }

  lemma {:induction false} SplitAtSep(a: string, sep: char, b: string)
    requires sep !in a
    ensures Split(a + [sep] + b, sep) == [a] + Split(b, sep)
  {
    var s := a + [sep] + b;
    if |a| == 0 {
      assert s[0] == sep && s[1..] == b;
    } else {
      assert s[0] == a[0] && s[1..] == a[1..] + [sep] + b;
      SplitAtSep(a[1..], sep, b);
      assert [a[0]] + a[1..] == a;
    }
  }

  /** Splitting what `Join` produced gives the fields back, provided no field holds the separator. */
  lemma {:induction false} SplitJoin(fields: seq<string>, sep: char)
    requires |fields| >= 1
    requires forall k :: 0 <= k < |fields| ==> sep !in fields[k]
    ensures Split(Join(fields, sep), sep) == fields
  {
    if |fields| == 1 {
      SplitWithoutSep(fields[0], sep);
    } else {
      SplitJoin(fields[1..], sep);
      SplitAtSep(fields[0], sep, Join(fields[1..], sep));
      assert [fields[0]] + fields[1..] == fields;
    }
  }

  /** Joining the pieces of a split restores the text exactly. */
  lemma {:induction false} JoinSplit(s: string, sep: char)
    ensures Join(Split(s, sep), sep) == s
    decreases |s|
  {
    if |s| > 0 {
      var rest := Split(s[1..], sep);
      JoinSplit(s[1..], sep);
      if s[0] == sep {
        assert Split(s, sep)[1..] == rest;
        assert s == [sep] + s[1..];
      } else {
        var r := Split(s, sep);
        assert r[0] == [s[0]] + rest[0] && r[1..] == rest[1..];
        if |rest| > 1 {
          assert Join(rest, sep) == rest[0] + [sep] + Join(rest[1..], sep);
        }
        assert s == [s[0]] + s[1..];
      }
    }
  }

  /** Text made of the given lines, each one terminated by a newline. */
  function Lines(ls: seq<string>): (text: string)
    ensures ls == [] <==> text == ""
    ensures ls != [] ==> |text| > |ls[0]| && text[..|ls[0]|] == ls[0] && text[|ls[0]|] == '\n' && text[|text| - 1] == '\n'
  {
    if ls == [] then "" else ls[0] + "\n" + Lines(ls[1..])
  }

  /** A blank line: nothing but spaces and tabs (the empty line included). */
  predicate Blank(l: string)
  {
    forall k :: 0 <= k < |l| ==> l[k] == ' ' || l[k] == '\t'
  }

  /** The lines that are not blank, in order (the reader skips blank lines). */
  function NonBlank(ls: seq<string>): (r: seq<string>)
    ensures forall k :: 0 <= k < |r| ==> !Blank(r[k])
    ensures forall l :: l in r <==> l in ls && !Blank(l)
    ensures |r| <= |ls|
  {
    if ls == [] then []
    else (if Blank(ls[0]) then [] else [ls[0]]) + NonBlank(ls[1..])
  }

  lemma {:induction false} SplitLines(ls: seq<string>)
    requires forall k :: 0 <= k < |ls| ==> '\n' !in ls[k]
    ensures Split(Lines(ls), '\n') == ls + [""]
  {
    if ls != [] {
      SplitLines(ls[1..]);
      SplitAtSep(ls[0], '\n', Lines(ls[1..]));
      assert ls[0] + "\n" + Lines(ls[1..]) == ls[0] + ['\n'] + Lines(ls[1..]);
      assert [ls[0]] + (ls[1..] + [""]) == ls + [""];
    }
  }

  lemma {:induction false} NonBlankKeepsLines(ls: seq<string>)
    requires forall k :: 0 <= k < |ls| ==> !Blank(ls[k])
    ensures NonBlank(ls + [""]) == ls
  {
    if ls == [] {
      assert [""][1..] == [];
    } else {
      assert (ls + [""])[1..] == ls[1..] + [""];
      NonBlankKeepsLines(ls[1..]);
      assert [ls[0]] + ls[1..] == ls;
    }
  }

  /** Lines that hold no newline of their own. */
  predicate NoNewline(ls: seq<string>)
  {
    forall k :: 0 <= k < |ls| ==> '\n' !in ls[k]
  }

  lemma NoNewlineConcat(xs: seq<string>, ys: seq<string>)
    requires NoNewline(xs) && NoNewline(ys)
    ensures NoNewline(xs + ys)
  {
    forall k | 0 <= k < |xs + ys| ensures '\n' !in (xs + ys)[k] {
      if k < |xs| {
        assert (xs + ys)[k] == xs[k];
      } else {
        assert (xs + ys)[k] == ys[k - |xs|];
      }
    }
  }

  /** Skipping blank lines works piece by piece. */
  lemma {:induction false} NonBlankConcat(xs: seq<string>, ys: seq<string>)
    ensures NonBlank(xs + ys) == NonBlank(xs) + NonBlank(ys)
  {
    if xs != [] {
      assert (xs + ys)[1..] == xs[1..] + ys;
      NonBlankConcat(xs[1..], ys);
    } else {
      assert xs + ys == ys;
    }
  }

  /** Nothing is kept from lines that are all blank. */
  lemma {:induction false} NonBlankOfBlanks(ls: seq<string>)
    requires forall k :: 0 <= k < |ls| ==> Blank(ls[k])
    ensures NonBlank(ls) == []
  {
    if ls != [] {
      NonBlankOfBlanks(ls[1..]);
    }
  }

  /** Dropping one blank line from between others leaves the kept lines as they were. */
  lemma NonBlankSkips(before: seq<string>, blank: string, after: seq<string>)
    requires Blank(blank)
    ensures NonBlank(before + [blank] + after) == NonBlank(before + after)
  {
    var front := before + [blank];
    NonBlankOfBlanks([blank]);
    NonBlankConcat(before, [blank]);
    assert NonBlank(front) == NonBlank(before) + [];
    assert NonBlank(before) + [] == NonBlank(before);
    NonBlankConcat(front, after);
    NonBlankConcat(before, after);
  }

  /** A blank line holds no newline, so putting it among lines without newlines keeps them so. */
  lemma NoNewlineAround(before: seq<string>, blank: string, after: seq<string>)
    requires NoNewline(before) && NoNewline(after) && Blank(blank)
    ensures NoNewline(before + [blank] + after) && NoNewline(before + after)
  {
    assert NoNewline([blank]) by {
      if '\n' in blank {
        var i :| 0 <= i < |blank| && blank[i] == '\n';
      }
    }
    NoNewlineConcat(before, [blank]);
    NoNewlineConcat(before + [blank], after);
    NoNewlineConcat(before, after);
  }

  /** The lines the reader keeps from `Lines(ls)` are the non-blank ones among `ls`. */
  lemma LinesNonBlank(ls: seq<string>)
    requires NoNewline(ls)
    ensures NonBlank(Split(Lines(ls), '\n')) == NonBlank(ls)
  {
    SplitLines(ls);
    NonBlankConcat(ls, [""]);
    assert [""][1..] == [];
  }

  /** Every character of a piece of a split comes from the split text. */
  lemma {:induction false} SplitChars(s: string, sep: char)
    ensures forall k, i :: 0 <= k < |Split(s, sep)| && 0 <= i < |Split(s, sep)[k]| ==> Split(s, sep)[k][i] in s
    decreases |s|
  {
    if |s| > 0 {
      SplitChars(s[1..], sep);
      var rest := Split(s[1..], sep);
      var r := Split(s, sep);
      forall k, i | 0 <= k < |r| && 0 <= i < |r[k]| ensures r[k][i] in s {
        if s[0] == sep {
          assert r[k] == ([""] + rest)[k];
          if k > 0 {
            assert r[k] == rest[k - 1];
            assert rest[k - 1][i] in s[1..];
          }
        } else if k == 0 {
          assert r[0] == [s[0]] + rest[0];
          if i > 0 {
            assert r[0][i] == rest[0][i - 1];
            assert rest[0][i - 1] in s[1..];
          }
        } else {
          assert r[k] == rest[k];
          assert rest[k][i] in s[1..];
        }
      }
    }
  }

  /** Reading back the non-blank lines of `Lines(ls)` yields `ls`, for non-blank lines without newlines. */
  lemma LinesRoundTrip(ls: seq<string>)
    requires forall k :: 0 <= k < |ls| ==> !Blank(ls[k]) && '\n' !in ls[k]
    ensures NonBlank(Split(Lines(ls), '\n')) == ls
  {
    SplitLines(ls);
    NonBlankKeepsLines(ls);
  }

  predicate IsDigit(c: char) { '0' <= c <= '9' }

  predicate AllDigits(s: string) { forall k :: 0 <= k < |s| ==> IsDigit(s[k]) }

  function DigitChar(d: nat): (c: char)
    requires d < 10
    ensures IsDigit(c) && (c as int) - ('0' as int) == d
  {
    ((d + '0' as int) as char)
  }

  /** Decimal digits of `n`, most significant first, with no leading zeros. */
  function NatToString(n: nat): (s: string)
    ensures |s| >= 1 && AllDigits(s)
    decreases n
  {
    if n < 10 then [DigitChar(n)] else NatToString(n / 10) + [DigitChar(n % 10)]
  }

  /** An integer written as the data library writes an integer cell: '-' for negatives, then digits. */
  function IntToString(n: int): (s: string)
    ensures |s| >= 1
    ensures forall k :: 0 <= k < |s| ==> IsDigit(s[k]) || (k == 0 && s[k] == '-')
  {
    if n < 0 then "-" + NatToString(-n) else NatToString(n)
  }

  /** The value of a string of decimal digits. */
  function DigitsValue(s: string): nat
    requires AllDigits(s)
  {
    if |s| == 0 then 0 else DigitsValue(s[..|s| - 1]) * 10 + ((s[|s| - 1] as int) - ('0' as int))
  }

  /** An integer cell: an optional sign followed by at least one decimal digit; anything else is not an integer. */
  function ParseInt(s: string): (r: Option<int>)
    ensures r.Some? <==> (|s| >= 1 && AllDigits(s)) || (|s| >= 2 && (s[0] == '-' || s[0] == '+') && AllDigits(s[1..]))
  {
    if |s| >= 2 && (s[0] == '-' || s[0] == '+') && AllDigits(s[1..]) then
      Some(if s[0] == '-' then -(DigitsValue(s[1..]) as int) else DigitsValue(s[1..]) as int)
    else if |s| >= 1 && AllDigits(s) then Some(DigitsValue(s))
    else None
  }

  lemma {:induction false} DigitsValueOfNat(n: nat)
    ensures DigitsValue(NatToString(n)) == n
    decreases n
  {
    if n >= 10 {
      var s := NatToString(n);
      DigitsValueOfNat(n / 10);
      assert s[..|s| - 1] == NatToString(n / 10);
    }
  }

  /** Reading back a written integer gives the same integer. */
  lemma ParseIntToString(n: int)
    ensures ParseInt(IntToString(n)) == Some(n)
  {
    if n < 0 {
      DigitsValueOfNat(-n);
      assert IntToString(n)[1..] == NatToString(-n);
    } else {
      DigitsValueOfNat(n);
    }
  }
}
