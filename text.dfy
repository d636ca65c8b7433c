/** The .NET string operations the rest of the model relies on, written out over
    `seq<char>`. Where .NET consults Unicode tables (white space, case folding,
    decimal digits) these helpers use the ASCII subset. */
module Text {

  /** The usual optional value; `:-` propagates `None`. */
  datatype Option<+T> = None | Some(value: T) {
    predicate IsFailure() { None? }

    function PropagateFailure<U>(): Option<U>
      requires None?
    {
      None
    }

    function Extract(): T
      requires Some?
    {
      value
    }
  }

  /** `char.IsWhiteSpace` and the regular-expression class `\s`, ASCII part. */
  predicate IsSpace(c: char) {
    c == ' ' || c == '\t' || c == '\n' || c == '\r' || c == '\U{000B}' || c == '\U{000C}'
  }

  /** The regular-expression class `\w`, ASCII part: letters, digits and '_'. */
  predicate IsWordChar(c: char) {
    ('a' <= c <= 'z') || ('A' <= c <= 'Z') || ('0' <= c <= '9') || c == '_'
  }

  /** A non-empty run of word characters (a `\w+` name). */
  predicate IsWord(s: string) {
    |s| > 0 && forall k :: 0 <= k < |s| ==> IsWordChar(s[k])
  }

  /** `char.IsDigit`, ASCII part. */
  predicate IsDigit(c: char) {
    '0' <= c <= '9'
  }

  /** Ordinal case folding of one character (ASCII letters only). */
  function Fold(c: char): (f: char)
    ensures !('A' <= f <= 'Z')
    ensures ('a' <= f <= 'z') <==> ('a' <= c <= 'z' || 'A' <= c <= 'Z')
    ensures !('a' <= c <= 'z' || 'A' <= c <= 'Z') ==> f == c
  {
    if 'A' <= c <= 'Z' then (c as int + 32) as char else c
  }

  /** `ToLower()` on ASCII letters. */
  function ToLower(s: string): (r: string)
    ensures |r| == |s|
    ensures forall i :: 0 <= i < |s| ==> r[i] == Fold(s[i])
  {
    if s == [] then [] else [Fold(s[0])] + ToLower(s[1..])
  }

  /** Character equality, ordinal or ordinal-ignore-case. */
  predicate CharEq(ci: bool, a: char, b: char) {
    if ci then Fold(a) == Fold(b) else a == b
  }

  /** `tag` occurs in `s` at index `i`. */
  predicate MatchesAt(s: string, i: int, tag: string, ci: bool) {
    0 <= i && i + |tag| <= |s| && forall k :: 0 <= k < |tag| ==> CharEq(ci, s[i + k], tag[k])
  }

  /** `string.Equals`, ordinal or ordinal-ignore-case. */
  predicate EqualsCi(ci: bool, a: string, b: string) {
    |a| == |b| && MatchesAt(a, 0, b, ci)
  }

  /** Equality, ordinal or ignoring case, is an equivalence. */
  lemma EqualsCiSymmetric(ci: bool, a: string, b: string)
    ensures EqualsCi(ci, a, b) <==> EqualsCi(ci, b, a)
  {
  }

  lemma EqualsCiTransitive(ci: bool, a: string, b: string, c: string)
    requires EqualsCi(ci, a, b) && EqualsCi(ci, b, c)
    ensures EqualsCi(ci, a, c)
  {
    forall k | 0 <= k < |c| ensures CharEq(ci, a[k], c[k]) {
      assert CharEq(ci, a[k], b[k]) && CharEq(ci, b[k], c[k]);
    }
  }

  /** `s.IndexOf(tag, from)`: the first index at or after `from` where `tag` occurs, or -1. */
  function IndexOf(s: string, tag: string, ci: bool, from: nat): (r: int)
    ensures r == -1 || (from <= r && MatchesAt(s, r, tag, ci))
    ensures r == -1 ==> forall j :: from <= j ==> !MatchesAt(s, j, tag, ci)
    ensures r != -1 ==> forall j :: from <= j < r ==> !MatchesAt(s, j, tag, ci)
    decreases |s| - from
  {
    if from + |tag| > |s| then -1
    else if MatchesAt(s, from, tag, ci) then from
    else IndexOf(s, tag, ci, from + 1)
  }

  /** The first occurrence at or after `from` is at `k`. */
  lemma IndexOfIs(s: string, tag: string, ci: bool, from: nat, k: nat)
    requires from <= k && MatchesAt(s, k, tag, ci)
    requires forall j :: from <= j < k ==> !MatchesAt(s, j, tag, ci)
    ensures IndexOf(s, tag, ci, from) == k
  {
  }

  /** `s.Contains(tag)`. */
  predicate Contains(s: string, tag: string, ci: bool) {
    IndexOf(s, tag, ci, 0) != -1
  }

  /** `s.IndexOf(c, from)` for one character. */
  function IndexOfChar(s: string, c: char, from: nat): (r: int)
    ensures r == -1 || (from <= r < |s| && s[r] == c)
    ensures r == -1 ==> forall j :: from <= j < |s| ==> s[j] != c
    ensures r != -1 ==> forall j :: from <= j < r ==> s[j] != c
    decreases |s| - from
  {
    if from >= |s| then -1
    else if s[from] == c then from
    else IndexOfChar(s, c, from + 1)
  }

  /** The first `c` at or after `from` is at `k`. */
  lemma IndexOfCharIs(s: string, c: char, from: nat, k: nat)
    requires from <= k < |s| && s[k] == c
    requires forall j :: from <= j < k ==> s[j] != c
    ensures IndexOfChar(s, c, from) == k
  {
  }

  /** Every character is white space: `string.IsNullOrWhiteSpace` for a non-null string. */
  predicate IsBlank(s: string) {
    forall i :: 0 <= i < |s| ==> IsSpace(s[i])
  }

  /** Index of the first non-white-space character at or after `i` (or `|s|`). */
  function SkipSpaces(s: string, i: nat): (j: nat)
    requires i <= |s|
    ensures i <= j <= |s|
    ensures forall k :: i <= k < j ==> IsSpace(s[k])
    ensures j == |s| || !IsSpace(s[j])
    decreases |s| - i
  {
    if i < |s| && IsSpace(s[i]) then SkipSpaces(s, i + 1) else i
  }

  /** Index just past the run of word characters starting at `i`. */
  function SkipWord(s: string, i: nat): (j: nat)
    requires i <= |s|
    ensures i <= j <= |s|
    ensures forall k :: i <= k < j ==> IsWordChar(s[k])
    ensures j == |s| || !IsWordChar(s[j])
    decreases |s| - i
  {
    if i < |s| && IsWordChar(s[i]) then SkipWord(s, i + 1) else i
  }

  /** Index just past the last non-white-space character before `j`, or `lo`
      when there is none at or after `lo`. */
  function SkipSpacesBack(s: string, lo: nat, j: nat): (k: nat)
    requires lo <= j <= |s|
    ensures lo <= k <= j
    ensures forall m :: k <= m < j ==> IsSpace(s[m])
    ensures k == lo || !IsSpace(s[k - 1])
    decreases j
  {
    if j > lo && IsSpace(s[j - 1]) then SkipSpacesBack(s, lo, j - 1) else j
  }

  /** `Trim()`: the text between the leading and the trailing white space. */
  function Trim(s: string): string {
    var i := SkipSpaces(s, 0);
    s[i..SkipSpacesBack(s, i, |s|)]
  }

  /** `Trim()` drops only white space, from both ends, and keeps no white
      space at either end; it gives "" exactly for a blank string. */
  lemma TrimmedEnds(s: string)
    ensures var r := Trim(s);
      && (r == [] || (!IsSpace(r[0]) && !IsSpace(r[|r| - 1])))
      && (IsBlank(s) <==> r == [])
      && exists i :: 0 <= i <= |s| - |r| && s[i..i + |r|] == r && IsBlank(s[..i]) && IsBlank(s[i + |r|..])
  {
    var i := SkipSpaces(s, 0);
    var j := SkipSpacesBack(s, i, |s|);
    var r := s[i..j];
    assert Trim(s) == r;
    assert s[i..i + |r|] == r;
    if i == j {
      assert i == |s|;
    } else {
      assert !IsSpace(s[i]);
      assert !IsBlank(s);
    }
    assert IsBlank(s[..i]) by {
      forall m | 0 <= m < i ensures IsSpace(s[..i][m]) { assert s[..i][m] == s[m]; }
    }
    assert IsBlank(s[j..]) by {
      forall m | 0 <= m < |s| - j ensures IsSpace(s[j..][m]) { assert s[j..][m] == s[j + m]; }
    }
  }

  /** A string with no white space at either end is its own trim. */
  lemma TrimClean(s: string)
    requires s != [] && !IsSpace(s[0]) && !IsSpace(s[|s| - 1])
    ensures Trim(s) == s
  {
    assert SkipSpaces(s, 0) == 0;
    assert SkipSpacesBack(s, 0, |s|) == |s|;
    assert s[0..|s|] == s;
  }

  /** Trimming drops one trailing blank. */
  lemma TrimTrailingBlank(s: string)
    requires s != [] && !IsSpace(s[0]) && !IsSpace(s[|s| - 1])
    ensures Trim(s + " ") == s
  {
    var t := s + " ";
    assert SkipSpaces(t, 0) == 0;
    assert SkipSpacesBack(t, 0, |s|) == |s|;
    assert SkipSpacesBack(t, 0, |t|) == |s|;
    assert t[0..|s|] == s;
  }

  /** `string.Join(sep, parts)`. */
  function Join(parts: seq<string>, sep: char): string {
    if parts == [] then ""
    else if |parts| == 1 then parts[0]
    else parts[0] + [sep] + Join(parts[1..], sep)
  }

  /** `s.Split(sep)`: the pieces between separators, empty pieces kept. */
  function Split(s: string, sep: char): (parts: seq<string>)
    ensures |parts| >= 1
    ensures forall p | p in parts :: sep !in p
    ensures Join(parts, sep) == s
    decreases |s|
  {
    var i := IndexOfChar(s, sep, 0);
    if i == -1 then [s]
    else
      var rest := Split(s[i + 1..], sep);
      assert s == s[..i] + [sep] + s[i + 1..];
      [s[..i]] + rest
  }

  /** `string.Join(sep, parts)` with a separator of any length. */
  function JoinWith(parts: seq<string>, sep: string): string {
    if parts == [] then ""
    else if |parts| == 1 then parts[0]
    else parts[0] + sep + JoinWith(parts[1..], sep)
  }

  /** Each part followed by `sep`, as a loop that appends `part + sep` builds it. */
  function Terminated(parts: seq<string>, sep: string): string {
    if parts == [] then "" else Terminated(parts[..|parts| - 1], sep) + parts[|parts| - 1] + sep
  }

  /** Appending the parts with a trailing separator and dropping the last
      separator gives the joined string. */
  lemma {:induction false} TerminatedIsJoined(parts: seq<string>, sep: string)
    requires parts != []
    ensures Terminated(parts, sep) == JoinWith(parts, sep) + sep
    decreases |parts|
  {
    if |parts| > 1 {
      var init := parts[..|parts| - 1];
      var last := parts[|parts| - 1];
      TerminatedIsJoined(init, sep);
      JoinWithSnoc(init, last, sep);
      assert init + [last] == parts;
    }
  }

  /** Joining one more part at the end. */
  lemma {:induction false} JoinWithSnoc(parts: seq<string>, last: string, sep: string)
    requires parts != []
    ensures JoinWith(parts + [last], sep) == JoinWith(parts, sep) + sep + last
    decreases |parts|
  {
    if |parts| == 1 {
      assert parts + [last] == [parts[0], last];
      assert [parts[0], last][1..] == [last];
    } else {
      assert (parts + [last])[1..] == parts[1..] + [last];
      JoinWithSnoc(parts[1..], last, sep);
    }
  }

  /** Splitting joined parts that hold no separator gives the parts back. */
  lemma {:induction false} SplitJoin(parts: seq<string>, sep: char)
    requires parts != []
    requires forall p | p in parts :: sep !in p
    ensures Split(Join(parts, sep), sep) == parts
    decreases |parts|
  {
    var s := Join(parts, sep);
    if |parts| == 1 {
      assert parts[0] in parts && s == parts[0];
      assert forall j :: 0 <= j < |s| ==> s[j] != sep;
      assert IndexOfChar(s, sep, 0) == -1;
    } else {
      var rest := Join(parts[1..], sep);
      var i := |parts[0]|;
      assert s == parts[0] + [sep] + rest;
      assert s[i] == sep;
      assert parts[0] in parts;
      forall j | 0 <= j < i ensures s[j] != sep {
        assert s[j] == parts[0][j];
      }
      IndexOfCharIs(s, sep, 0, i);
      assert s[..i] == parts[0];
      assert s[i + 1..] == rest;
      forall p | p in parts[1..] ensures sep !in p {
        assert p in parts;
      }
      SplitJoin(parts[1..], sep);
      assert [parts[0]] + parts[1..] == parts;
    }
  }

  /** Joining with a one-character string is joining with that character. */
  lemma {:induction false} JoinWithChar(parts: seq<string>, sep: char)
    ensures JoinWith(parts, [sep]) == Join(parts, sep)
    decreases |parts|
  {
    if |parts| > 1 {
      JoinWithChar(parts[1..], sep);
    }
  }

  /** The non-empty entries of `parts`, in order (`StringSplitOptions.RemoveEmptyEntries`). */
  function NonEmpty(parts: seq<string>): (r: seq<string>)
    ensures forall p | p in r :: p != [] && p in parts
    ensures forall p | p in parts && p != [] :: p in r
    ensures |r| <= |parts|
  {
    if parts == [] then []
    else if parts[0] == [] then NonEmpty(parts[1..])
    else [parts[0]] + NonEmpty(parts[1..])
  }

  /** `s.Split(sep, StringSplitOptions.RemoveEmptyEntries)`. */
  function SplitNonEmpty(s: string, sep: char): seq<string> {
    NonEmpty(Split(s, sep))
  }

  /** `s.Replace(c, d)` for single characters. */
  function ReplaceChar(s: string, c: char, d: char): (r: string)
    ensures |r| == |s|
    ensures forall i :: 0 <= i < |s| ==> r[i] == (if s[i] == c then d else s[i])
  {
    if s == [] then [] else [if s[0] == c then d else s[0]] + ReplaceChar(s[1..], c, d)
  }

  /** `s.Replace(pat, rep)`: ordinal, left to right, non-overlapping. */
  function Replace(s: string, pat: string, rep: string): string
    requires |pat| > 0
    decreases |s|
  {
    if s == [] then []
    else if MatchesAt(s, 0, pat, false) then rep + Replace(s[|pat|..], pat, rep)
    else [s[0]] + Replace(s[1..], pat, rep)
  }

  /** An occurrence in a suffix is an occurrence in the whole string. */
  lemma MatchesInSuffix(s: string, n: nat, j: nat, tag: string, ci: bool)
    requires n <= |s|
    requires MatchesAt(s[n..], j, tag, ci)
    ensures MatchesAt(s, n + j, tag, ci)
  {
    forall k | 0 <= k < |tag| ensures CharEq(ci, s[n + j + k], tag[k]) {
      assert s[n..][j + k] == s[n + j + k];
    }
  }

  /** A string in which the pattern never occurs is left as it is by `Replace`. */
  lemma {:induction false} ReplaceAbsent(s: string, pat: string, rep: string)
    requires |pat| > 0
    requires IndexOf(s, pat, false, 0) == -1
    ensures Replace(s, pat, rep) == s
    decreases |s|
  {
    if s != [] {
      assert !MatchesAt(s, 0, pat, false);
      if IndexOf(s[1..], pat, false, 0) != -1 {
        var j := IndexOf(s[1..], pat, false, 0);
        MatchesInSuffix(s, 1, j, pat, false);
      }
      ReplaceAbsent(s[1..], pat, rep);
      assert s == [s[0]] + s[1..];
    }
  }

  /** The decimal digit for `d`. */
  function DigitChar(d: nat): (c: char)
    requires d < 10
    ensures IsDigit(c)
  {
    ('0' as int + d) as char
  }

  /** `n.ToString()` for a natural number: its decimal digits, most significant first. */
  function NatToString(n: nat): (s: string)
    ensures |s| >= 1
    ensures forall i :: 0 <= i < |s| ==> IsDigit(s[i])
    ensures n >= 10 ==> s[0] != '0'
    decreases n
  {
    if n < 10 then [DigitChar(n)] else NatToString(n / 10) + [DigitChar(n % 10)]
  }

  /** `i.ToString()` with the invariant culture's '-' sign. */
  function IntToString(i: int): string {
    if i < 0 then "-" + NatToString(-i) else NatToString(i)
  }

  /** The value of a string of decimal digits (0 for the empty string). */
  function DigitsValue(s: string): nat
    requires forall i :: 0 <= i < |s| ==> IsDigit(s[i])
  {
    if s == [] then 0
    else
      assert IsDigit(s[|s| - 1]);
      DigitsValue(s[..|s| - 1]) * 10 + (s[|s| - 1] as int - '0' as int)
  }

  /** Reading back the digits `NatToString` writes gives the number again. */
  lemma {:induction false} DigitsRoundTrip(n: nat)
    ensures DigitsValue(NatToString(n)) == n
    decreases n
  {
    if n >= 10 {
      DigitsRoundTrip(n / 10);
      var s := NatToString(n);
      assert s[..|s| - 1] == NatToString(n / 10);
    }
  }
}
