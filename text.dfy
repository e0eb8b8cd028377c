/** The pieces of Rust's `str` that the map parser relies on: `split_once`, `split(char)`,
    `trim` and `i16::from_str`, stated on `string` (a sequence of characters). */
module Text {
  import opened Wrappers

  /** `pat` occurs in `s` starting at index `i`. */
  predicate OccursAt(s: string, pat: string, i: int)
  {
    0 <= i && i + |pat| <= |s| && s[i..i + |pat|] == pat
  }

  /** `pat` occurs nowhere in `s`. */
  ghost predicate Lacks(s: string, pat: string)
  {
    forall j :: 0 <= j ==> !OccursAt(s, pat, j)
  }

  /** The leftmost index at or after `i` where `pat` occurs in `s`. */
  function FindFrom(s: string, pat: string, i: nat): (r: Option<nat>)
    requires i <= |s|
    ensures r.Some? ==> i <= r.value && OccursAt(s, pat, r.value)
    ensures r.Some? ==> forall j :: i <= j < r.value ==> !OccursAt(s, pat, j)
    ensures r.None? ==> forall j :: i <= j ==> !OccursAt(s, pat, j)
    decreases |s| - i
  {
    if OccursAt(s, pat, i) then Some(i)
    else if i == |s| then None
    else FindFrom(s, pat, i + 1)
  }

  /** `str::split_once`: the text before and after the leftmost occurrence of `pat`,
      or `None` when `pat` does not occur. */
  function SplitOnce(s: string, pat: string): (r: Option<(string, string)>)
    ensures r.None? <==> Lacks(s, pat)
    ensures r.Some? ==> s == r.value.0 + pat + r.value.1
    ensures r.Some? ==> forall j :: 0 <= j < |r.value.0| ==> !OccursAt(s, pat, j)
  {
    match FindFrom(s, pat, 0)
    case None => None
    case Some(i) =>
      assert s == s[..i] + s[i..i + |pat|] + s[i + |pat|..];
      Some((s[..i], s[i + |pat|..]))
  }

  /** A pattern cannot occur where its first character does not. */
  lemma NoOccurrenceAt(s: string, pat: string, j: int)
    requires 0 <= j < |s| && |pat| > 0 && s[j] != pat[0]
    ensures !OccursAt(s, pat, j)
  {
  }

  /** Concatenation regroups freely; the solver needs the step spelled out. */
  lemma ConcatAssoc(a: string, b: string, c: string)
    ensures a + (b + c) == (a + b) + c
  {
  }

  /** The converse of SplitOnce's contract: cutting at the leftmost occurrence is the only cut. */
  lemma {:induction false} SplitOnceAtFirst(a: string, pat: string, b: string)
    requires forall j :: 0 <= j < |a| ==> !OccursAt(a + pat + b, pat, j)
    ensures SplitOnce(a + pat + b, pat) == Some((a, b))
  {
    var s := a + pat + b;
    assert s[|a|..|a| + |pat|] == pat;
    assert OccursAt(s, pat, |a|);
    var i := FindFrom(s, pat, 0).value;
    assert i == |a|;
    assert s[..i] == a;
    assert s[i + |pat|..] == b;
  }

  /** Splitting at a single character that the first part lacks cuts right after that part. */
  lemma SplitOnceAtChar(a: string, c: char, b: string)
    requires c !in a
    ensures SplitOnce(a + [c] + b, [c]) == Some((a, b))
  {
    var s := a + [c] + b;
    forall j | 0 <= j < |a|
      ensures !OccursAt(s, [c], j)
    {
      assert s[j..j + 1][0] == s[j] == a[j];
    }
    SplitOnceAtFirst(a, [c], b);
  }

  /** The text before the leftmost occurrence does not itself contain `pat`. */
  lemma PrefixHasNoOccurrence(a: string, pat: string, b: string)
    requires |pat| > 0
    requires forall j :: 0 <= j < |a| ==> !OccursAt(a + pat + b, pat, j)
    ensures Lacks(a, pat)
  {
    forall j | 0 <= j && OccursAt(a, pat, j)
      ensures false
    {
      assert (a + pat + b)[j..j + |pat|] == a[j..j + |pat|];
      assert OccursAt(a + pat + b, pat, j);
    }
  }

  /** `str::split(sep)` for a character separator: the separator-free fields between the
      separators, always at least one (the empty text has one empty field). */
  function Split(s: string, sep: char): (r: seq<string>)
    ensures |r| >= 1
    ensures forall k :: 0 <= k < |r| ==> sep !in r[k]
    decreases |s|
  {
    if |s| == 0 then [""]
    else
      var rest := Split(s[1..], sep);
      if s[0] == sep then [""] + rest
      else [[s[0]] + rest[0]] + rest[1..]
  }

  /** Fields glued back together with the separator between them. */
  function Join(fields: seq<string>, sep: char): string
    requires |fields| >= 1
    decreases |fields|
  {
    if |fields| == 1 then fields[0] else fields[0] + [sep] + Join(fields[1..], sep)
  }

  lemma {:induction false} JoinSplit(s: string, sep: char)
    ensures Join(Split(s, sep), sep) == s
    decreases |s|
  {
    if |s| > 0 {
      var rest := Split(s[1..], sep);
      JoinSplit(s[1..], sep);
      if s[0] == sep {
        assert Split(s, sep) == [""] + rest;
        assert ([""] + rest)[1..] == rest;
        assert s == [sep] + s[1..];
      } else {
        var r := [[s[0]] + rest[0]] + rest[1..];
        assert Split(s, sep) == r;
        if |rest| == 1 {
          assert rest[0] == s[1..];
        } else {
          assert r[1..] == rest[1..];
          assert Join(rest, sep) == rest[0] + [sep] + Join(rest[1..], sep);
        }
        assert s == [s[0]] + s[1..];
      }
    }
  }

  lemma {:induction false} SplitOfField(a: string, sep: char)
    requires sep !in a
    ensures Split(a, sep) == [a]
    decreases |a|
  {
    if |a| > 0 {
      assert a[1..] == a[1..] && sep !in a[1..];
      SplitOfField(a[1..], sep);
      assert [a[0]] + a[1..] == a;
    }
  }

  lemma {:induction false} SplitAfterField(a: string, sep: char, t: string)
    requires sep !in a
    ensures Split(a + [sep] + t, sep) == [a] + Split(t, sep)
    decreases |a|
  {
    var s := a + [sep] + t;
    if |a| == 0 {
      assert s == [sep] + t && s[1..] == t;
    } else {
      assert s[1..] == a[1..] + [sep] + t;
      assert sep !in a[1..];
      SplitAfterField(a[1..], sep, t);
      assert [a[0]] + a[1..] == a;
    }
  }

  /** Splitting the joined fields gives the fields back, when none contains the separator. */
  lemma {:induction false} SplitJoin(fields: seq<string>, sep: char)
    requires |fields| >= 1
    requires forall k :: 0 <= k < |fields| ==> sep !in fields[k]
    ensures Split(Join(fields, sep), sep) == fields
    decreases |fields|
  {
    if |fields| == 1 {
      SplitOfField(fields[0], sep);
    } else {
      SplitJoin(fields[1..], sep);
      SplitAfterField(fields[0], sep, Join(fields[1..], sep));
      assert [fields[0]] + fields[1..] == fields;
    }
  }

  /** The characters Rust's `char::is_whitespace` accepts (Unicode White_Space). */
  predicate IsWhitespace(c: char)
  {
    c == ' ' || ('\t' <= c <= '\r') || c == '\U{85}' || c == '\U{A0}' || c == '\U{1680}' ||
    ('\U{2000}' <= c <= '\U{200A}') || c == '\U{2028}' || c == '\U{2029}' || c == '\U{202F}' ||
    c == '\U{205F}' || c == '\U{3000}'
  }

  /** The length of the run of whitespace that starts `s`. */
  function LeadingWhitespace(s: string): (n: nat)
    ensures n <= |s|
    decreases |s|
  {
    if |s| == 0 || !IsWhitespace(s[0]) then 0 else 1 + LeadingWhitespace(s[1..])
  }

  /** The length of the run of whitespace that ends `s`. */
  function TrailingWhitespace(s: string): (n: nat)
    ensures n <= |s|
    decreases |s|
  {
    if |s| == 0 || !IsWhitespace(s[|s| - 1]) then 0 else 1 + TrailingWhitespace(s[..|s| - 1])
  }

  /** The leading run is all whitespace and stops at the first character that is not. */
  lemma {:induction false} LeadingWhitespaceIsWhitespace(s: string)
    ensures forall k :: 0 <= k < LeadingWhitespace(s) ==> IsWhitespace(s[k])
    ensures LeadingWhitespace(s) < |s| ==> !IsWhitespace(s[LeadingWhitespace(s)])
    decreases |s|
  {
    if |s| > 0 && IsWhitespace(s[0]) {
      LeadingWhitespaceIsWhitespace(s[1..]);
      forall k | 1 <= k < LeadingWhitespace(s)
        ensures IsWhitespace(s[k])
      {
        assert s[k] == s[1..][k - 1];
      }
    }
  }

  /** The trailing run is all whitespace and stops at the last character that is not. */
  lemma {:induction false} TrailingWhitespaceIsWhitespace(s: string)
    ensures forall k :: |s| - TrailingWhitespace(s) <= k < |s| ==> IsWhitespace(s[k])
    ensures TrailingWhitespace(s) < |s| ==> !IsWhitespace(s[|s| - TrailingWhitespace(s) - 1])
    decreases |s|
  {
    if |s| > 0 && IsWhitespace(s[|s| - 1]) {
      TrailingWhitespaceIsWhitespace(s[..|s| - 1]);
      forall k | |s| - TrailingWhitespace(s) <= k < |s| - 1
        ensures IsWhitespace(s[k])
      {
        assert s[k] == s[..|s| - 1][k];
      }
    }
  }

  /** `str::trim`: `s` without its leading and trailing whitespace. */
  function Trim(s: string): (r: string)
    ensures |r| <= |s|
  {
    var t := s[LeadingWhitespace(s)..];
    t[..|t| - TrailingWhitespace(t)]
  }

  /** What trimming keeps: a run of `s` right after its leading whitespace, which neither
      starts nor ends with whitespace. */
  lemma TrimKeepsMiddle(s: string)
    ensures LeadingWhitespace(s) + |Trim(s)| <= |s|
    ensures Trim(s) == s[LeadingWhitespace(s)..LeadingWhitespace(s) + |Trim(s)|]
    ensures |Trim(s)| > 0 ==> !IsWhitespace(Trim(s)[0]) && !IsWhitespace(Trim(s)[|Trim(s)| - 1])
  {
    var n := LeadingWhitespace(s);
    var t := s[n..];
    var m := |t| - TrailingWhitespace(t);
    assert Trim(s) == t[..m] == s[n..n + m];
    if m > 0 {
      LeadingWhitespaceIsWhitespace(s);
      TrailingWhitespaceIsWhitespace(t);
      assert Trim(s)[0] == s[n];
      assert Trim(s)[m - 1] == t[m - 1];
    }
  }

  /** What trimming drops after the kept run is whitespace (what it drops before the run is
      the leading run, whitespace by LeadingWhitespaceIsWhitespace). */
  lemma TrimDropsWhitespace(s: string)
    ensures forall k :: LeadingWhitespace(s) + |Trim(s)| <= k < |s| ==> IsWhitespace(s[k])
  {
    var n := LeadingWhitespace(s);
    var t := s[n..];
    var m := |t| - TrailingWhitespace(t);
    assert |Trim(s)| == m;
    TrailingWhitespaceIsWhitespace(t);
    forall k | n + m <= k < |s|
      ensures IsWhitespace(s[k])
    {
      assert s[k] == t[k - n];
    }
  }

  /** Trimming text that neither starts nor ends with whitespace leaves it as it is. */
  lemma TrimUntrimmed(s: string)
    requires |s| > 0 && !IsWhitespace(s[0]) && !IsWhitespace(s[|s| - 1])
    ensures Trim(s) == s
  {
  }

  predicate IsDigit(c: char)
  {
    '0' <= c <= '9'
  }

  predicate AllDigits(s: string)
  {
    forall k :: 0 <= k < |s| ==> IsDigit(s[k])
  }

  function DigitValue(c: char): (d: nat)
    requires IsDigit(c)
    ensures d < 10
  {
    c as int - '0' as int
  }

  function DigitChar(d: nat): (c: char)
    requires d < 10
    ensures IsDigit(c) && DigitValue(c) == d
  {
    ('0' as int + d) as char
  }

  /** The value of a run of decimal digits, most significant first. */
  function DecimalValue(s: string): nat
    requires AllDigits(s)
    decreases |s|
  {
    if |s| == 0 then 0 else 10 * DecimalValue(s[..|s| - 1]) + DigitValue(s[|s| - 1])
  }

  const I16Min: int := -32768
  const I16Max: int := 32767

  /** `str::parse::<i16>()`: an optional `+` or `-`, then at least one decimal digit and
      nothing else; a value outside the `i16` range is an error too. */
  function ParseI16(s: string): (r: Option<int>)
    ensures r.Some? ==> I16Min <= r.value <= I16Max
    ensures r.Some? ==> |s| > 0 && IsDigit(s[|s| - 1])
  {
    if |s| == 0 then None
    else if (s[0] == '+' || s[0] == '-') && |s| == 1 then None
    else
      var digits := if s[0] == '+' || s[0] == '-' then s[1..] else s;
      if !AllDigits(digits) then None
      else
        var magnitude: int := DecimalValue(digits);
        var v := if s[0] == '-' then -magnitude else magnitude;
        if I16Min <= v <= I16Max then Some(v) else None
  }

  /** The shortest decimal text of `n`. */
  function ShowNat(n: nat): (s: string)
    ensures |s| > 0 && AllDigits(s)
    decreases n
  {
    if n < 10 then [DigitChar(n)] else ShowNat(n / 10) + [DigitChar(n % 10)]
  }

  /** The decimal text of `n` as a map file holds it: a `-` for negative values. */
  function ShowInt(n: int): (s: string)
    ensures |s| > 0 && !IsWhitespace(s[0]) && IsDigit(s[|s| - 1])
    ensures ',' !in s
  {
    if n < 0 then "-" + ShowNat(-n) else ShowNat(n)
  }

  lemma {:induction false} DecimalValueOfShowNat(n: nat)
    ensures DecimalValue(ShowNat(n)) == n
    decreases n
  {
    if n >= 10 {
      var s := ShowNat(n);
      DecimalValueOfShowNat(n / 10);
      assert s[..|s| - 1] == ShowNat(n / 10);
    }
  }

  /** Parsing the decimal text of an `i16` value gives the value back. */
  lemma ParseShowInt(n: int)
    requires I16Min <= n <= I16Max
    ensures ParseI16(ShowInt(n)) == Some(n)
  {
    var s := ShowInt(n);
    if n < 0 {
      DecimalValueOfShowNat(-n);
      assert s[1..] == ShowNat(-n);
    } else {
      DecimalValueOfShowNat(n);
    }
  }
}
