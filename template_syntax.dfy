/** The template language's surface syntax as the two versions of
    `HtmlTemplateRenderer` read it: directive tags, the block locator
    (`FindMatchingEndTag`) and the three regular expressions that parse an
    `$if(...)` header, a `$foreach(...)` header and a `${...}` placeholder.

    Each regular expression is written out as the match .NET's backtracking
    engine finds: `Regex.Match` tries start positions from left to right, and at
    one position the quantifiers' backtracking settles on exactly one outcome,
    which the `...At` functions compute directly. */
module TemplateSyntax {
  import opened Text

  /** The two versions of the engine: `Mini` (Mini-HttpServer, directive and
      path names compared ignoring case) and `Hw4` (Homework_4, ordinal). */
  datatype Dialect = Mini | Hw4 {
    predicate IgnoreCase() { this == Mini }
  }

  const IfOpen: string := "$if"
  const IfClose: string := "$endif"
  const ElseTag: string := "$else"
  const ForOpen: string := "$foreach"
  const ForClose: string := "$endfor"

  /** The two (open, close) pairs the locator is called with. */
  predicate IsTagPair(open: string, close: string) {
    (open == IfOpen && close == IfClose) || (open == ForOpen && close == ForClose)
  }

  /** `IsSubstringAt` of the Hw4 version (Mini inlines the same test with
      `OrdinalIgnoreCase`): `sub` occurs in `text` at `index`. */
  predicate IsSubstringAt(d: Dialect, text: string, index: int, sub: string) {
    MatchesAt(text, index, sub, d.IgnoreCase())
  }

  /** An opening tag that the locator counts at `i`. Mini only counts it when
      the next character exists and is '(' or white space. */
  predicate OpensAt(d: Dialect, text: string, i: int, open: string) {
    IsSubstringAt(d, text, i, open) &&
    (d == Mini ==> i + |open| < |text| && (text[i + |open|] == '(' || IsSpace(text[i + |open|])))
  }

  /** A closing tag that the locator counts at `i` (the opening test comes first). */
  predicate ClosesAt(d: Dialect, text: string, i: int, open: string, close: string) {
    !OpensAt(d, text, i, open) && IsSubstringAt(d, text, i, close)
  }

  /** The locator's scan from `index` with nesting counter `balance`. */
  function Scan(d: Dialect, text: string, open: string, close: string, index: nat, balance: int): int
    requires |open| > 0 && |close| > 0
    decreases |text| - index
  {
    if index >= |text| then -1
    else if OpensAt(d, text, index, open) then Scan(d, text, open, close, index + |open|, balance + 1)
    else if IsSubstringAt(d, text, index, close) then
      if balance - 1 == 0 then index else Scan(d, text, open, close, index + |close|, balance - 1)
    else Scan(d, text, open, close, index + 1, balance)
  }

  /** `FindMatchingEndTag(text, start, open, close)`: the index of the closing
      tag that balances the block starting at `start`, or -1. */
  function MatchingEnd(d: Dialect, text: string, start: nat, open: string, close: string): (r: int)
    requires |open| > 0 && |close| > 0
    ensures r == -1 || (start <= r && r + |close| <= |text| && IsSubstringAt(d, text, r, close))
  {
    ScanStopsAtClose(d, text, open, close, start, 0);
    Scan(d, text, open, close, start, 0)
  }

  /** The scan gives -1 or the index of a closing tag it counts. */
  lemma {:induction false} ScanStopsAtClose(d: Dialect, text: string, open: string, close: string, index: nat, balance: int)
    requires |open| > 0 && |close| > 0
    ensures var r := Scan(d, text, open, close, index, balance);
      r == -1 || (index <= r && ClosesAt(d, text, r, open, close))
    decreases |text| - index
  {
    if index >= |text| {
    } else if OpensAt(d, text, index, open) {
      ScanStopsAtClose(d, text, open, close, index + |open|, balance + 1);
    } else if IsSubstringAt(d, text, index, close) {
      if balance - 1 != 0 {
        ScanStopsAtClose(d, text, open, close, index + |close|, balance - 1);
      }
    } else {
      ScanStopsAtClose(d, text, open, close, index + 1, balance);
    }
  }

  /** One step of the scan at an opening tag. */
  lemma ScanOpens(d: Dialect, text: string, open: string, close: string, index: nat, balance: int)
    requires |open| > 0 && |close| > 0 && index < |text| && OpensAt(d, text, index, open)
    ensures Scan(d, text, open, close, index, balance) == Scan(d, text, open, close, index + |open|, balance + 1)
  {
  }

  /** One step of the scan at a closing tag that does not balance. */
  lemma ScanCloses(d: Dialect, text: string, open: string, close: string, index: nat, balance: int)
    requires |open| > 0 && |close| > 0 && index < |text| && ClosesAt(d, text, index, open, close) && balance != 1
    ensures Scan(d, text, open, close, index, balance) == Scan(d, text, open, close, index + |close|, balance - 1)
  {
  }

  /** The scan stops at a closing tag that balances. */
  lemma ScanBalances(d: Dialect, text: string, open: string, close: string, index: nat)
    requires |open| > 0 && |close| > 0 && index < |text| && ClosesAt(d, text, index, open, close)
    ensures Scan(d, text, open, close, index, 1) == index
  {
  }

  /** The scan gives up at the end of the text. */
  lemma ScanEnds(d: Dialect, text: string, open: string, close: string, index: nat, balance: int)
    requires |open| > 0 && |close| > 0 && index >= |text|
    ensures Scan(d, text, open, close, index, balance) == -1
  {
  }

  /** One step of the scan past any other character. */
  lemma ScanPasses(d: Dialect, text: string, open: string, close: string, index: nat, balance: int)
    requires |open| > 0 && |close| > 0 && index < |text|
    requires !OpensAt(d, text, index, open) && !IsSubstringAt(d, text, index, close)
    ensures Scan(d, text, open, close, index, balance) == Scan(d, text, open, close, index + 1, balance)
  {
  }

  /** `FindMatchingEndTag` as the source writes it: a while loop over `index`
      that updates `balance`. */
  method FindMatchingEndTag(d: Dialect, text: string, start: nat, open: string, close: string) returns (r: int)
    requires |open| > 0 && |close| > 0
    ensures r == MatchingEnd(d, text, start, open, close)
  {
    var balance := 0;
    var index := start;
    ghost var target := MatchingEnd(d, text, start, open, close);
    while index < |text|
      invariant Scan(d, text, open, close, index, balance) == target
      decreases |text| - index
    {
      if OpensAt(d, text, index, open) {
        ScanOpens(d, text, open, close, index, balance);
        balance := balance + 1;
        index := index + |open|;
      } else if IsSubstringAt(d, text, index, close) {
        balance := balance - 1;
        if balance == 0 {
          ScanBalances(d, text, open, close, index);
          return index;
        }
        ScanCloses(d, text, open, close, index, balance + 1);
        index := index + |close|;
      } else {
        ScanPasses(d, text, open, close, index, balance);
        index := index + 1;
      }
    }
    ScanEnds(d, text, open, close, index, balance);
    return -1;
  }

  /** What one position contributes to the nesting counter. */
  function Step(d: Dialect, text: string, open: string, close: string, i: int): int {
    if OpensAt(d, text, i, open) then 1
    else if ClosesAt(d, text, i, open, close) then -1
    else 0
  }

  /** Opening tags minus closing tags found at positions `a .. b-1`. */
  function Net(d: Dialect, text: string, open: string, close: string, a: int, b: int): int
    decreases b - a
  {
    if b <= a then 0 else Step(d, text, open, close, a) + Net(d, text, open, close, a + 1, b)
  }

  /** The counter after one more position. */
  lemma {:induction false} NetSnoc(d: Dialect, text: string, open: string, close: string, a: int, b: int)
    requires a <= b
    ensures Net(d, text, open, close, a, b + 1) == Net(d, text, open, close, a, b) + Step(d, text, open, close, b)
    decreases b - a
  {
    if a < b {
      NetSnoc(d, text, open, close, a + 1, b);
    }
  }

  /** No closing tag in `start .. index-1` brings the counter back to 0. */
  ghost predicate NoBalanceBefore(d: Dialect, text: string, start: int, open: string, close: string, index: int) {
    forall j :: start <= j < index && ClosesAt(d, text, j, open, close) ==> Net(d, text, open, close, start, j) != 1
  }

  /** No closing tag at or after `start` brings the counter back to 0. */
  ghost predicate NoBalance(d: Dialect, text: string, start: int, open: string, close: string) {
    forall j :: start <= j && ClosesAt(d, text, j, open, close) ==> Net(d, text, open, close, start, j) != 1
  }

  /** `r` is the first closing tag after `start` at which the counter returns to 0. */
  ghost predicate IsBalancingClose(d: Dialect, text: string, start: int, open: string, close: string, r: int) {
    && start <= r
    && ClosesAt(d, text, r, open, close)
    && Net(d, text, open, close, start, r) == 1
    && NoBalanceBefore(d, text, start, open, close, r)
  }

  /** Inside an occurrence of a tag (past its '$') no tag of the pair begins. */
  lemma NoTagInside(d: Dialect, text: string, i: int, tag: string, open: string, close: string, k: int)
    requires IsTagPair(open, close)
    requires tag == open || tag == close
    requires IsSubstringAt(d, text, i, tag)
    requires 0 < k < |tag|
    ensures Step(d, text, open, close, i + k) == 0
  {
    assert CharEq(d.IgnoreCase(), text[i + k], tag[k]);
    assert tag[k] != '$' && Fold(tag[k]) != '$';
    assert text[i + k] != '$';
    assert !CharEq(d.IgnoreCase(), text[i + k], open[0]);
    assert !CharEq(d.IgnoreCase(), text[i + k], close[0]);
  }

  /** Skipping a whole tag adds only the tag's own step to the counter. */
  lemma NetAcrossTag(d: Dialect, text: string, start: int, i: int, tag: string, open: string, close: string, m: int)
    requires IsTagPair(open, close)
    requires tag == open || tag == close
    requires IsSubstringAt(d, text, i, tag)
    requires start <= i && 1 <= m <= |tag|
    ensures Net(d, text, open, close, start, i + m) == Net(d, text, open, close, start, i) + Step(d, text, open, close, i)
    ensures forall j :: i < j < i + m ==> Step(d, text, open, close, j) == 0
  {
    forall j | i < j < i + m ensures Step(d, text, open, close, j) == 0 {
      NoTagInside(d, text, i, tag, open, close, j - i);
    }
    NetOverQuiet(d, text, open, close, start, i, m);
  }

  /** Positions that contribute nothing leave the counter as it was. */
  lemma {:induction false} NetOverQuiet(d: Dialect, text: string, open: string, close: string, start: int, i: int, m: int)
    requires start <= i && 1 <= m
    requires forall j :: i < j < i + m ==> Step(d, text, open, close, j) == 0
    ensures Net(d, text, open, close, start, i + m) == Net(d, text, open, close, start, i) + Step(d, text, open, close, i)
    decreases m
  {
    if m > 1 {
      NetOverQuiet(d, text, open, close, start, i, m - 1);
      NetSnoc(d, text, open, close, start, i + m - 1);
    } else {
      NetSnoc(d, text, open, close, start, i);
    }
  }

  /** `NoBalanceBefore` extended over `index .. index+m-1`. */
  lemma ExtendNoBalanceBefore(d: Dialect, text: string, start: int, open: string, close: string, index: int, m: nat)
    requires NoBalanceBefore(d, text, start, open, close, index)
    requires forall j :: index <= j < index + m && ClosesAt(d, text, j, open, close) ==> Net(d, text, open, close, start, j) != 1
    ensures NoBalanceBefore(d, text, start, open, close, index + m)
  {
  }

  /** Past the end of the text no closing tag can occur. */
  lemma NoBalanceAtEnd(d: Dialect, text: string, start: int, open: string, close: string)
    requires |close| > 0
    requires NoBalanceBefore(d, text, start, open, close, |text|)
    ensures NoBalance(d, text, start, open, close)
  {
    forall j | start <= j && ClosesAt(d, text, j, open, close)
      ensures Net(d, text, open, close, start, j) != 1
    {
      assert j < |text|;
    }
  }

  /** Stepping over a tag of the pair keeps the scan's invariant. */
  lemma StepOverTag(d: Dialect, text: string, open: string, close: string, start: nat, index: nat, tag: string)
    requires IsTagPair(open, close)
    requires tag == open || tag == close
    requires IsSubstringAt(d, text, index, tag)
    requires start <= index
    requires NoBalanceBefore(d, text, start, open, close, index)
    requires ClosesAt(d, text, index, open, close) ==> Net(d, text, open, close, start, index) != 1
    ensures Net(d, text, open, close, start, index + |tag|) == Net(d, text, open, close, start, index) + Step(d, text, open, close, index)
    ensures NoBalanceBefore(d, text, start, open, close, index + |tag|)
  {
    NetAcrossTag(d, text, start, index, tag, open, close, |tag|);
    forall j | index < j < index + |tag|
      ensures !ClosesAt(d, text, j, open, close)
    {
      assert Step(d, text, open, close, j) == 0;
    }
    ExtendNoBalanceBefore(d, text, start, open, close, index, |tag|);
  }

  /** What the scan's result `r` means for the block starting at `start`. */
  ghost predicate ScanOutcome(d: Dialect, text: string, start: int, open: string, close: string, r: int) {
    && (r == -1 ==> NoBalance(d, text, start, open, close))
    && (r != -1 ==> IsBalancingClose(d, text, start, open, close, r))
  }

  /** The scan from a tag boundary finds the first balancing close, if any. */
  lemma {:induction false} ScanFindsBalancingClose(d: Dialect, text: string, open: string, close: string, start: nat, index: nat, balance: int)
    requires IsTagPair(open, close)
    requires start <= index <= |text|
    requires balance == Net(d, text, open, close, start, index)
    requires NoBalanceBefore(d, text, start, open, close, index)
    ensures ScanOutcome(d, text, start, open, close, Scan(d, text, open, close, index, balance))
    decreases |text| - index, 1
  {
    if index >= |text| {
      ScanEnds(d, text, open, close, index, balance);
      NoBalanceAtEnd(d, text, start, open, close);
    } else if OpensAt(d, text, index, open) {
      ScanPastOpen(d, text, open, close, start, index, balance);
    } else if IsSubstringAt(d, text, index, close) {
      assert ClosesAt(d, text, index, open, close);
      if balance == 1 {
        ScanAtBalancingClose(d, text, open, close, start, index);
      } else {
        ScanPastClose(d, text, open, close, start, index, balance);
      }
    } else {
      ScanPastOther(d, text, open, close, start, index, balance);
    }
  }

  /** `ScanFindsBalancingClose` at a character that starts no tag. */
  lemma {:induction false} ScanPastOther(d: Dialect, text: string, open: string, close: string, start: nat, index: nat, balance: int)
    requires IsTagPair(open, close)
    requires start <= index < |text| && !OpensAt(d, text, index, open) && !IsSubstringAt(d, text, index, close)
    requires balance == Net(d, text, open, close, start, index)
    requires NoBalanceBefore(d, text, start, open, close, index)
    ensures ScanOutcome(d, text, start, open, close, Scan(d, text, open, close, index, balance))
    decreases |text| - index, 0
  {
    ScanPasses(d, text, open, close, index, balance);
    assert !ClosesAt(d, text, index, open, close);
    assert Step(d, text, open, close, index) == 0;
    NetSnoc(d, text, open, close, start, index);
    ExtendNoBalanceBefore(d, text, start, open, close, index, 1);
    ScanFindsBalancingClose(d, text, open, close, start, index + 1, balance);
  }

  /** `ScanFindsBalancingClose` at an opening tag. */
  lemma {:induction false} ScanPastOpen(d: Dialect, text: string, open: string, close: string, start: nat, index: nat, balance: int)
    requires IsTagPair(open, close)
    requires start <= index < |text| && OpensAt(d, text, index, open)
    requires balance == Net(d, text, open, close, start, index)
    requires NoBalanceBefore(d, text, start, open, close, index)
    ensures ScanOutcome(d, text, start, open, close, Scan(d, text, open, close, index, balance))
    decreases |text| - index, 0
  {
    var next := index + |open|;
    assert next <= |text| && balance + 1 == Net(d, text, open, close, start, next)
      && NoBalanceBefore(d, text, start, open, close, next) by {
      assert Step(d, text, open, close, index) == 1;
      StepOverTag(d, text, open, close, start, index, open);
    }
    ScanOpens(d, text, open, close, index, balance);
    ScanFindsBalancingClose(d, text, open, close, start, next, balance + 1);
  }

  /** `ScanFindsBalancingClose` at a closing tag that brings the counter to 0. */
  lemma ScanAtBalancingClose(d: Dialect, text: string, open: string, close: string, start: nat, index: nat)
    requires IsTagPair(open, close)
    requires start <= index < |text| && ClosesAt(d, text, index, open, close)
    requires Net(d, text, open, close, start, index) == 1
    requires NoBalanceBefore(d, text, start, open, close, index)
    ensures ScanOutcome(d, text, start, open, close, Scan(d, text, open, close, index, 1))
  {
    ScanBalances(d, text, open, close, index);
  }

  /** `ScanFindsBalancingClose` at a closing tag that leaves the counter non-zero. */
  lemma {:induction false} ScanPastClose(d: Dialect, text: string, open: string, close: string, start: nat, index: nat, balance: int)
    requires IsTagPair(open, close)
    requires start <= index < |text| && ClosesAt(d, text, index, open, close)
    requires balance == Net(d, text, open, close, start, index) && balance != 1
    requires NoBalanceBefore(d, text, start, open, close, index)
    ensures ScanOutcome(d, text, start, open, close, Scan(d, text, open, close, index, balance))
    decreases |text| - index, 0
  {
    StepOverClose(d, text, open, close, start, index);
    ScanCloses(d, text, open, close, index, balance);
    ScanFindsBalancingClose(d, text, open, close, start, index + |close|, balance - 1);
  }

  /** Stepping over a closing tag that does not balance lowers the counter by one. */
  lemma StepOverClose(d: Dialect, text: string, open: string, close: string, start: nat, index: nat)
    requires IsTagPair(open, close)
    requires start <= index < |text| && ClosesAt(d, text, index, open, close)
    requires Net(d, text, open, close, start, index) != 1
    requires NoBalanceBefore(d, text, start, open, close, index)
    ensures index + |close| <= |text|
    ensures Net(d, text, open, close, start, index + |close|) == Net(d, text, open, close, start, index) - 1
    ensures NoBalanceBefore(d, text, start, open, close, index + |close|)
  {
    assert Step(d, text, open, close, index) == -1;
    StepOverTag(d, text, open, close, start, index, close);
  }

  /** `FindMatchingEndTag` returns -1 exactly when no closing tag brings the
      nesting counter back to 0, and otherwise the first one that does. */
  lemma MatchingEndIsFirstBalancingClose(d: Dialect, text: string, start: nat, open: string, close: string)
    requires IsTagPair(open, close)
    requires start <= |text|
    ensures var r := MatchingEnd(d, text, start, open, close);
      && (r == -1 <==> NoBalance(d, text, start, open, close))
      && (r != -1 ==> IsBalancingClose(d, text, start, open, close, r))
  {
    ScanFindsBalancingClose(d, text, open, close, start, start, 0);
  }

  /** A parsed `$if(...)` header: where the match starts (`at`), its capture
      group and the match's length. */
  datatype IfHeader = IfHeader(at: nat, cond: string, len: nat)

  /** A parsed `$foreach(...)` header: the loop variable (group 1), the
      collection path (group 2) and the match's length. */
  datatype ForHeader = ForHeader(at: nat, item: string, list: string, len: nat)

  /** The `$if` header regular expression tried at position `p`.
      Mini: `\$if\s*\(\s*([^)]+)\s*\)`, ignoring case. The group is
      everything between the spaces after '(' and the first ')' (or, when
      only spaces stand there, the last of them: `\s*` gives one back).
      Hw4: `\$if\((.*?)\)`: the shortest run up to a ')' with no line feed. */
  function IfHeaderAt(d: Dialect, s: string, p: nat): (r: Option<IfHeader>)
    ensures r.Some? ==> r.value.at == p && r.value.len >= 1 && p + r.value.len <= |s| && s[p + r.value.len - 1] == ')'
    ensures r.Some? ==> |r.value.cond| <= r.value.len
  {
    if d == Mini then
      if !MatchesAt(s, p, IfOpen, true) then None
      else
        var q := SkipSpaces(s, p + |IfOpen|);
        if q >= |s| || s[q] != '(' then None
        else
          var e := IndexOfChar(s, ')', q + 1);
          if e == -1 || e == q + 1 then None
          else
            var a := SkipSpaces(s, q + 1);
            var group := if a < e then s[a..e] else s[e - 1..e];
            Some(IfHeader(p, group, e + 1 - p))
    else
      if !MatchesAt(s, p, IfOpen + "(", false) then None
      else
        var e := IndexOfChar(s, ')', p + 4);
        if e == -1 || IndexOfChar(s[..e], '\n', p + 4) != -1 then None
        else Some(IfHeader(p, s[p + 4..e], e + 1 - p))
  }

  /** `Regex.Match` with the `$if` header expression: the match at the
      leftmost position at or after `from`. */
  function FirstIfHeader(d: Dialect, s: string, from: nat): (r: Option<IfHeader>)
    ensures r.Some? ==> from <= r.value.at
    ensures r.Some? ==> r.value.len >= 1 && r.value.at + r.value.len <= |s| && s[r.value.at + r.value.len - 1] == ')'
    decreases |s| - from
  {
    if from > |s| then None
    else
      var h := IfHeaderAt(d, s, from);
      if h.Some? then h else FirstIfHeader(d, s, from + 1)
  }

  /** The part of the `$foreach` header after the optional `var `, from `b`:
      `(\w+)\s+in\s+([^\)]+)\s*\)`. Returns the two groups and the index
      just past the closing ')'. When only spaces stand between `in` and ')',
      `\s+` gives its last space to group 2, which needs two spaces. */
  function LoopRest(d: Dialect, s: string, b: nat): (r: Option<(string, string, nat)>)
    requires b <= |s|
    ensures r.Some? ==> b < r.value.2 <= |s| && s[r.value.2 - 1] == ')'
  {
    var w := SkipWord(s, b);
    if w == b || w >= |s| || !IsSpace(s[w]) then None
    else
      var x := SkipSpaces(s, w);
      if !MatchesAt(s, x, "in", d.IgnoreCase()) || x + 2 >= |s| || !IsSpace(s[x + 2]) then None
      else
        var y := SkipSpaces(s, x + 2);
        var e := IndexOfChar(s, ')', y);
        if e == -1 then None
        else if e > y then Some((s[b..w], s[y..e], e + 1))
        else if y - (x + 2) >= 2 then Some((s[b..w], s[y - 1..y], y + 1))
        else None
  }

  /** The header's parenthesised part from `a` (past '(' and its spaces):
      `(?:var\s+)?` then `LoopRest`. Mini tries `var ` first and, when the rest
      then fails, again without it; Hw4 requires `var ` (case-sensitive). */
  function LoopClause(d: Dialect, s: string, a: nat): (r: Option<(string, string, nat)>)
    requires a <= |s|
    ensures r.Some? ==> a < r.value.2 <= |s| && s[r.value.2 - 1] == ')'
  {
    var withVar := match VarPrefixEnd(d, s, a)
      case None => None
      case Some(b) => LoopRest(d, s, b);
    if withVar.Some? || d == Hw4 then withVar else LoopRest(d, s, a)
  }

  /** `var\s+` at `a`: the index just past its spaces, or `None`. */
  function VarPrefixEnd(d: Dialect, s: string, a: nat): (b: Option<nat>)
    ensures b.Some? ==> a < b.value <= |s|
  {
    if MatchesAt(s, a, "var", d.IgnoreCase()) && a + 3 < |s| && IsSpace(s[a + 3])
    then Some(SkipSpaces(s, a + 3))
    else None
  }

  /** The `$foreach` header regular expression tried at position `p`.
      Mini: `\$foreach\s*\(\s*(?:var\s+)?(\w+)\s+in\s+([^\)]+)\s*\)`,
      ignoring case. Hw4: the same with `var\s+` required, case-sensitive. */
  function ForHeaderAt(d: Dialect, s: string, p: nat): (r: Option<ForHeader>)
    ensures r.Some? ==> r.value.at == p && r.value.len >= 1 && p + r.value.len <= |s| && s[p + r.value.len - 1] == ')'
  {
    if !MatchesAt(s, p, ForOpen, d.IgnoreCase()) then None
    else
      var q := SkipSpaces(s, p + |ForOpen|);
      if q >= |s| || s[q] != '(' then None
      else
        var rest := LoopClause(d, s, SkipSpaces(s, q + 1));
        if rest.None? then None
        else Some(ForHeader(p, rest.value.0, rest.value.1, rest.value.2 - p))
  }

  /** `Regex.Match` with the `$foreach` header expression: the match at the
      leftmost position at or after `from`. */
  function FirstForHeader(d: Dialect, s: string, from: nat): (r: Option<ForHeader>)
    ensures r.Some? ==> from <= r.value.at
    ensures r.Some? ==> r.value.len >= 1 && r.value.at + r.value.len <= |s| && s[r.value.at + r.value.len - 1] == ')'
    decreases |s| - from
  {
    if from > |s| then None
    else
      var h := ForHeaderAt(d, s, from);
      if h.Some? then h else FirstForHeader(d, s, from + 1)
  }

  /** The placeholder expression tried at `p`, giving the index of its '}'.
      Mini: `\$\{([^}]+)\}` (at least one character before the first '}').
      Hw4: `\$\{(.*?)\}` (possibly empty, no line feed before the first '}'). */
  function PlaceholderAt(d: Dialect, s: string, p: nat): (r: Option<nat>)
    ensures r.Some? ==> p + 2 <= r.value < |s| && s[r.value] == '}' && MatchesAt(s, p, "${", false)
    ensures r.Some? ==> forall k :: p + 2 <= k < r.value ==> s[k] != '}'
  {
    if !MatchesAt(s, p, "${", false) then None
    else
      var e := IndexOfChar(s, '}', p + 2);
      if e == -1 then None
      else if d == Mini then (if e == p + 2 then None else Some(e))
      else if IndexOfChar(s[..e], '\n', p + 2) != -1 then None
      else Some(e)
  }

  /** A closing tag contains no ')', so a header's ')' lies before the
      block's closing tag and the body `Substring` is in range. */
  lemma HeaderBeforeClose(d: Dialect, fb: string, close: string, stop: nat)
    requires close == IfClose || close == ForClose
    requires |close| <= |fb| && MatchesAt(fb, |fb| - |close|, close, d.IgnoreCase())
    requires 1 <= stop <= |fb| && fb[stop - 1] == ')'
    ensures stop <= |fb| - |close|
  {
    forall j | |fb| - |close| <= j < |fb|
      ensures fb[j] != ')'
    {
      var k := j - (|fb| - |close|);
      assert CharEq(d.IgnoreCase(), fb[j], close[k]);
    }
  }

  /** The text from `start` through the closing tag at `end` (the source's
      `fullBlock`) ends with that closing tag. */
  lemma BlockEndsWithClose(d: Dialect, t: string, start: nat, end: nat, close: string)
    requires start <= end && end + |close| <= |t| && IsSubstringAt(d, t, end, close)
    ensures var fb := t[start..end + |close|];
      |close| <= |fb| && MatchesAt(fb, |fb| - |close|, close, d.IgnoreCase())
  {
    var fb := t[start..end + |close|];
    forall k | 0 <= k < |close| ensures CharEq(d.IgnoreCase(), fb[|fb| - |close| + k], close[k]) {
      assert fb[|fb| - |close| + k] == t[end + k];
    }
  }

  /** A header ending with ')' at `stop - 1` inside the block text
      `t[start..end + |close|]` ends before the closing tag; the body read
      from `len <= stop` on is a slice of `t`. */
  lemma HeaderWithinBlock(d: Dialect, t: string, start: nat, end: nat, close: string, len: nat, stop: nat)
    requires close == IfClose || close == ForClose
    requires start <= end && end + |close| <= |t| && IsSubstringAt(d, t, end, close)
    requires len <= stop && 1 <= stop <= end + |close| - start && t[start..end + |close|][stop - 1] == ')'
    ensures start + stop <= end
    ensures t[start..end + |close|][len..end - start] == t[start + len..end]
  {
    var fb := t[start..end + |close|];
    BlockEndsWithClose(d, t, start, end, close);
    HeaderBeforeClose(d, fb, close, stop);
    assert |fb| - |close| == end - start;
    var body, slice := fb[len..end - start], t[start + len..end];
    forall k | 0 <= k < |body| ensures body[k] == slice[k] {
      assert fb[len + k] == t[start + len + k];
    }
  }

  /** A located `$if` block: its parsed header, its body (between the header
      match and `$endif`) and the index of its `$endif` in the template. */
  datatype IfBlock = IfBlock(header: IfHeader, body: string, end: nat)

  /** A located `$foreach` block, likewise. */
  datatype ForBlock = ForBlock(header: ForHeader, body: string, end: nat)

  /** The block an `$if` at `start` opens: `None` when no `$endif` balances
      it or its header does not parse. The body starts `header.len`
      characters into the block (the source uses the match's length as the
      offset, not its end). */
  function IfBlockAt(d: Dialect, t: string, start: nat): (r: Option<IfBlock>)
    requires start <= |t|
    ensures r.Some? ==> start <= r.value.end && r.value.end + |IfClose| <= |t|
    ensures r.Some? ==> r.value.end == MatchingEnd(d, t, start, IfOpen, IfClose)
    ensures MatchingEnd(d, t, start, IfOpen, IfClose) == -1 ==> r.None?
    ensures r.Some? ==> (start + r.value.header.len <= r.value.end
      && r.value.body == t[start + r.value.header.len..r.value.end])
    ensures r.Some? ==> FirstIfHeader(d, t[start..r.value.end + |IfClose|], 0) == Some(r.value.header)
    ensures MatchingEnd(d, t, start, IfOpen, IfClose) != -1 && FirstIfHeader(d, t[start..MatchingEnd(d, t, start, IfOpen, IfClose) + |IfClose|], 0).Some? ==> r.Some?
  {
    var end := MatchingEnd(d, t, start, IfOpen, IfClose);
    if end == -1 then None else IfBlockEndingAt(d, t, start, end)
  }

  /** The `$if` block from `start` whose `$endif` is at `end`. */
  function IfBlockEndingAt(d: Dialect, t: string, start: nat, end: nat): (r: Option<IfBlock>)
    requires start <= end && end + |IfClose| <= |t| && IsSubstringAt(d, t, end, IfClose)
    ensures r.Some? <==> FirstIfHeader(d, t[start..end + |IfClose|], 0).Some?
    ensures r.Some? ==> r.value.end == end && FirstIfHeader(d, t[start..end + |IfClose|], 0) == Some(r.value.header)
    ensures r.Some? ==> start + r.value.header.len <= end && r.value.body == t[start + r.value.header.len..end]
  {
    match FirstIfHeader(d, t[start..end + |IfClose|], 0)
    case None => None
    case Some(h) =>
      HeaderWithinBlock(d, t, start, end, IfClose, h.len, h.at + h.len);
      Some(IfBlock(h, t[start + h.len..end], end))
  }

  /** The block a `$foreach` at `start` opens. */
  function ForBlockAt(d: Dialect, t: string, start: nat): (r: Option<ForBlock>)
    requires start <= |t|
    ensures r.Some? ==> start <= r.value.end && r.value.end + |ForClose| <= |t|
    ensures r.Some? ==> r.value.end == MatchingEnd(d, t, start, ForOpen, ForClose)
    ensures MatchingEnd(d, t, start, ForOpen, ForClose) == -1 ==> r.None?
    ensures r.Some? ==> (start + r.value.header.len <= r.value.end
      && r.value.body == t[start + r.value.header.len..r.value.end])
    ensures r.Some? ==> FirstForHeader(d, t[start..r.value.end + |ForClose|], 0) == Some(r.value.header)
    ensures MatchingEnd(d, t, start, ForOpen, ForClose) != -1 && FirstForHeader(d, t[start..MatchingEnd(d, t, start, ForOpen, ForClose) + |ForClose|], 0).Some? ==> r.Some?
  {
    var end := MatchingEnd(d, t, start, ForOpen, ForClose);
    if end == -1 then None else ForBlockEndingAt(d, t, start, end)
  }

  /** The `$foreach` block from `start` whose `$endfor` is at `end`. */
  function ForBlockEndingAt(d: Dialect, t: string, start: nat, end: nat): (r: Option<ForBlock>)
    requires start <= end && end + |ForClose| <= |t| && IsSubstringAt(d, t, end, ForClose)
    ensures r.Some? <==> FirstForHeader(d, t[start..end + |ForClose|], 0).Some?
    ensures r.Some? ==> r.value.end == end && FirstForHeader(d, t[start..end + |ForClose|], 0) == Some(r.value.header)
    ensures r.Some? ==> start + r.value.header.len <= end && r.value.body == t[start + r.value.header.len..end]
  {
    match FirstForHeader(d, t[start..end + |ForClose|], 0)
    case None => None
    case Some(h) =>
      HeaderWithinBlock(d, t, start, end, ForClose, h.len, h.at + h.len);
      Some(ForBlock(h, t[start + h.len..end], end))
  }

  /** The two versions differ on `${}`: Mini's `[^}]+` needs a character, so
      the text stays; Hw4's `(.*?)` matches it with an empty path. */
  lemma EmptyPlaceholder()
    ensures PlaceholderAt(Mini, "${}", 0) == None
    ensures PlaceholderAt(Hw4, "${}", 0) == Some(2)
  {
    assert MatchesAt("${}", 0, "${", false);
    assert IndexOfChar("${}", '}', 2) == 2;
    assert IndexOfChar("${}"[..2], '\n', 2) == -1;
  }

  /** Hw4 needs '(' right after `$if`; Mini allows white space between. */
  lemma IfHeaderSpacing()
    ensures IfHeaderAt(Hw4, "$if (x)", 0) == None
    ensures IfHeaderAt(Mini, "$if (x)", 0) == Some(IfHeader(0, "x", 7))
  {
    var s := "$if (x)";
    assert !MatchesAt(s, 0, IfOpen + "(", false) by { assert s[3] != (IfOpen + "(")[3]; }
    assert MatchesAt(s, 0, IfOpen, true);
    assert SkipSpaces(s, 3) == 4 by { assert IsSpace(s[3]) && !IsSpace(s[4]); }
    assert IndexOfChar(s, ')', 5) == 6;
    assert SkipSpaces(s, 5) == 5 by { assert !IsSpace(s[5]); }
    assert s[5..6] == "x";
  }

  /** `x in p)` stands in `s` from `b`. */
  predicate LoopTextAt(s: string, b: nat, x: string, p: string) {
    && b + |x| + |p| + 5 <= |s|
    && (forall k :: 0 <= k < |x| ==> s[b + k] == x[k])
    && s[b + |x|] == ' ' && s[b + |x| + 1] == 'i' && s[b + |x| + 2] == 'n' && s[b + |x| + 3] == ' '
    && (forall k :: 0 <= k < |p| ==> s[b + |x| + 4 + k] == p[k])
    && s[b + |x| + 4 + |p|] == ')'
  }

  /** Where the pieces of `pre x in p)rest` lie. */
  lemma LoopTextOfConcat(pre: string, x: string, p: string, rest: string)
    ensures var s := pre + x + " in " + p + ")" + rest;
      && LoopTextAt(s, |pre|, x, p)
      && forall k :: 0 <= k < |pre| ==> s[k] == pre[k]
  {
  }

  /** `(\w+)\s+in\s+([^\)]+)\s*\)` on `x in p)`, from `b`: the groups are the
      word `x` and the path `p`. */
  lemma LoopRestOf(d: Dialect, s: string, b: nat, x: string, p: string)
    requires IsWord(x) && p != [] && !IsSpace(p[0]) && ')' !in p
    requires LoopTextAt(s, b, x, p)
    ensures LoopRest(d, s, b) == Some((x, p, b + |x| + |p| + 5))
  {
    LoopWordEnd(s, b, x, p);
    LoopKeyword(d, s, b, x, p);
    LoopPathEnd(s, b, x, p);
  }

  /** The loop variable of `x in p)` ends at the space after `x`. */
  lemma LoopWordEnd(s: string, b: nat, x: string, p: string)
    requires IsWord(x) && LoopTextAt(s, b, x, p)
    ensures SkipWord(s, b) == b + |x| && s[b..b + |x|] == x
  {
    var w := b + |x|;
    assert forall k :: b <= k < w ==> IsWordChar(s[k]) by {
      forall k | b <= k < w ensures IsWordChar(s[k]) { assert s[b + (k - b)] == x[k - b]; }
    }
    assert !IsWordChar(s[w]);
    assert s[b..w] == x;
  }

  /** ` in ` follows the loop variable. */
  lemma LoopKeyword(d: Dialect, s: string, b: nat, x: string, p: string)
    requires LoopTextAt(s, b, x, p)
    ensures var w := b + |x|;
      && IsSpace(s[w]) && SkipSpaces(s, w) == w + 1
      && MatchesAt(s, w + 1, "in", d.IgnoreCase()) && IsSpace(s[w + 3])
  {
    var w := b + |x|;
    assert SkipSpaces(s, w) == w + 1;
    assert CharEq(d.IgnoreCase(), s[w + 1], "in"[0]) && CharEq(d.IgnoreCase(), s[w + 2], "in"[1]);
  }

  /** The collection path runs from after ` in ` to the first ')'. */
  lemma LoopPathEnd(s: string, b: nat, x: string, p: string)
    requires p != [] && !IsSpace(p[0]) && ')' !in p
    requires LoopTextAt(s, b, x, p)
    ensures var y := b + |x| + 4;
      && SkipSpaces(s, y - 1) == y && IndexOfChar(s, ')', y) == y + |p| && s[y..y + |p|] == p
  {
    var y := b + |x| + 4;
    assert s[y] == p[0] by { assert s[b + |x| + 4 + 0] == p[0]; }
    assert SkipSpaces(s, y - 1) == y;
    var e := y + |p|;
    assert forall k :: y <= k < e ==> s[k] == p[k - y] by {
      forall k | y <= k < e ensures s[k] == p[k - y] { assert s[b + |x| + 4 + (k - y)] == p[k - y]; }
    }
    IndexOfCharIs(s, ')', y, e);
    assert s[y..e] == p;
  }

  /** Recognition of `$foreach(var x in p)`: both versions read the loop
      variable `x` and the collection path `p` (Mini also spells the
      keywords in any case). */
  lemma ForHeaderRecognised(d: Dialect, x: string, p: string, rest: string)
    requires IsWord(x) && p != [] && !IsSpace(p[0]) && ')' !in p
    ensures ForHeaderAt(d, "$foreach(var " + x + " in " + p + ")" + rest, 0) == Some(ForHeader(0, x, p, |x| + |p| + 18))
  {
    LoopTextOfConcat("$foreach(var ", x, p, rest);
    ForHeaderWithVarAt(d, "$foreach(var " + x + " in " + p + ")" + rest, x, p);
  }

  /** `ForHeaderRecognised` on a text given by the positions of its pieces. */
  lemma ForHeaderWithVarAt(d: Dialect, s: string, x: string, p: string)
    requires IsWord(x) && p != [] && !IsSpace(p[0]) && ')' !in p
    requires LoopTextAt(s, 13, x, p) && forall k :: 0 <= k < 13 ==> s[k] == "$foreach(var "[k]
    ensures ForHeaderAt(d, s, 0) == Some(ForHeader(0, x, p, |x| + |p| + 18))
  {
    ForOpenParen(d, s, "$foreach(var ");
    VarPrefixAt(d, s, x, p);
    LoopRestOf(d, s, 13, x, p);
    LoopClauseWithVar(d, s, 9, 13);
  }

  /** After a `var` prefix, the clause is the rest read from past it. */
  lemma LoopClauseWithVar(d: Dialect, s: string, a: nat, b: nat)
    requires a <= b <= |s| && VarPrefixEnd(d, s, a) == Some(b) && LoopRest(d, s, b).Some?
    ensures LoopClause(d, s, a) == LoopRest(d, s, b)
  {
  }

  /** `var ` before the loop variable is the optional prefix. */
  lemma VarPrefixAt(d: Dialect, s: string, x: string, p: string)
    requires IsWord(x) && LoopTextAt(s, 13, x, p)
    requires forall k :: 0 <= k < 13 ==> s[k] == "$foreach(var "[k]
    ensures SkipSpaces(s, 9) == 9 && VarPrefixEnd(d, s, 9) == Some(13)
  {
    assert s[9] == 'v' && s[10] == 'a' && s[11] == 'r' && s[12] == ' ' by {
      assert s[9] == "$foreach(var "[9] && s[10] == "$foreach(var "[10];
      assert s[11] == "$foreach(var "[11] && s[12] == "$foreach(var "[12];
    }
    assert MatchesAt(s, 9, "var", d.IgnoreCase()) by {
      assert CharEq(d.IgnoreCase(), s[9], "var"[0]) && CharEq(d.IgnoreCase(), s[10], "var"[1]) && CharEq(d.IgnoreCase(), s[11], "var"[2]);
    }
    assert s[13] == x[0] by { assert s[13 + 0] == x[0]; }
    assert SkipSpaces(s, 12) == 13;
  }

  /** Without `var`, Hw4's header expression does not match, so the
      `$foreach` is left as it is; Mini's optional `var` accepts it. */
  lemma ForHeaderWithoutVar(x: string, p: string, rest: string)
    requires IsWord(x) && !EqualsCi(true, x, "var")
    requires p != [] && !IsSpace(p[0]) && ')' !in p
    ensures ForHeaderAt(Hw4, "$foreach(" + x + " in " + p + ")" + rest, 0) == None
    ensures ForHeaderAt(Mini, "$foreach(" + x + " in " + p + ")" + rest, 0) == Some(ForHeader(0, x, p, |x| + |p| + 14))
  {
    var s := "$foreach(" + x + " in " + p + ")" + rest;
    LoopTextOfConcat("$foreach(", x, p, rest);
    ForHeaderBareAt(Hw4, s, x, p);
    ForHeaderBareAt(Mini, s, x, p);
  }

  /** `ForHeaderWithoutVar` on a text given by the positions of its pieces. */
  lemma ForHeaderBareAt(d: Dialect, s: string, x: string, p: string)
    requires IsWord(x) && !EqualsCi(true, x, "var")
    requires p != [] && !IsSpace(p[0]) && ')' !in p
    requires LoopTextAt(s, 9, x, p) && forall k :: 0 <= k < 9 ==> s[k] == "$foreach("[k]
    ensures d == Hw4 ==> ForHeaderAt(d, s, 0) == None
    ensures d == Mini ==> ForHeaderAt(d, s, 0) == Some(ForHeader(0, x, p, |x| + |p| + 14))
  {
    ForOpenParen(d, s, "$foreach(");
    assert !IsSpace(s[9]) by { assert s[9 + 0] == x[0]; }
    assert SkipSpaces(s, 9) == 9;
    NoVarPrefix(d, s, x, p);
    if d == Mini {
      LoopRestOf(d, s, 9, x, p);
      assert LoopClause(d, s, 9) == Some((x, p, |x| + |p| + 14));
    } else {
      assert LoopClause(d, s, 9) == None;
    }
  }

  /** Hw4's `$foreach(var in p)`: `var` is read as the prefix, `in` as the
      loop variable, and then the keyword `in` is missing, so the header is
      refused. */
  lemma VarWithoutItem(x: string, p: string, rest: string)
    requires x == "var"
    requires p != [] && !IsSpace(p[0]) && !(|p| >= 2 && p[0] == 'i' && p[1] == 'n')
    ensures ForHeaderAt(Hw4, "$foreach(" + x + " in " + p + ")" + rest, 0) == None
  {
    LoopTextOfConcat("$foreach(", x, p, rest);
    VarWithoutItemAt("$foreach(" + x + " in " + p + ")" + rest, p);
  }

  /** `VarWithoutItem` on a text given by the positions of its pieces. */
  lemma VarWithoutItemAt(s: string, p: string)
    requires p != [] && !IsSpace(p[0]) && !(|p| >= 2 && p[0] == 'i' && p[1] == 'n')
    requires LoopTextAt(s, 9, "var", p) && forall k :: 0 <= k < 9 ==> s[k] == "$foreach("[k]
    ensures ForHeaderAt(Hw4, s, 0) == None
  {
    ForOpenParen(Hw4, s, "$foreach(");
    assert s[9] == 'v' && s[10] == 'a' && s[11] == 'r' by {
      assert s[9 + 0] == "var"[0] && s[9 + 1] == "var"[1] && s[9 + 2] == "var"[2];
    }
    assert SkipSpaces(s, 9) == 9;
    assert VarPrefixEnd(Hw4, s, 9) == Some(13) by {
      assert MatchesAt(s, 9, "var", false);
      assert SkipSpaces(s, 12) == 13;
    }
    assert SkipWord(s, 13) == 15 by {
      assert SkipWord(s, 14) == 15;
    }
    assert SkipSpaces(s, 15) == 16 by { assert s[16 + 0] == p[0]; }
    assert !MatchesAt(s, 16, "in", false) by {
      if p[0] != 'i' {
        assert s[16 + 0] == p[0];
        assert !CharEq(false, s[16 + 0], "in"[0]);
      } else if |p| >= 2 {
        assert s[16 + 1] == p[1];
        assert !CharEq(false, s[16 + 1], "in"[1]);
      } else {
        assert !CharEq(false, s[16 + 1], "in"[1]);
      }
    }
    assert LoopRest(Hw4, s, 13) == None;
    assert LoopClause(Hw4, s, 9) == None;
  }

  /** A text that starts with `pre`, itself starting with `$foreach(`, is
      parsed from the clause after '(' on. */
  lemma ForOpenParen(d: Dialect, s: string, pre: string)
    requires 9 <= |pre| <= |s| && pre[..9] == "$foreach("
    requires forall k :: 0 <= k < |pre| ==> s[k] == pre[k]
    ensures ForHeaderAt(d, s, 0) == match LoopClause(d, s, SkipSpaces(s, 9))
      case None => None
      case Some(rest) => Some(ForHeader(0, rest.0, rest.1, rest.2))
  {
    assert forall k :: 0 <= k < 9 ==> s[k] == "$foreach("[k] by {
      forall k | 0 <= k < 9 ensures s[k] == "$foreach("[k] { assert pre[..9][k] == pre[k]; }
    }
    assert MatchesAt(s, 0, ForOpen, d.IgnoreCase()) by {
      forall k | 0 <= k < 8 ensures CharEq(d.IgnoreCase(), s[k], ForOpen[k]) { }
    }
    assert SkipSpaces(s, 8) == 8;
  }

  /** A word other than `var` (in any case) at 9 is no `var\s+`. */
  lemma NoVarPrefix(d: Dialect, s: string, x: string, p: string)
    requires IsWord(x) && !EqualsCi(true, x, "var")
    requires LoopTextAt(s, 9, x, p)
    ensures VarPrefixEnd(d, s, 9) == None
  {
    var ci := d.IgnoreCase();
    if |x| < 3 {
      assert s[9 + |x|] == ' ';
      assert !CharEq(ci, s[9 + |x|], "var"[|x|]);
    } else if |x| == 3 {
      var k :| 0 <= k < 3 && !CharEq(true, x[k], "var"[k]);
      assert s[9 + k] == x[k];
      assert !CharEq(ci, s[9 + k], "var"[k]);
    } else {
      assert s[9 + 3] == x[3];
      assert !IsSpace(s[12]);
    }
  }

  /** Recognition of `$if(c)` for a condition `c` holding no ')'. Hw4 takes
      any such `c` without a line feed, even an empty one; Mini needs at
      least one character, and takes `c` as it is when it starts with a
      character other than white space. */
  lemma IfHeaderRecognised(d: Dialect, c: string, rest: string)
    requires ')' !in c
    ensures d == Hw4 ==> IfHeaderAt(d, "$if(" + c + ")" + rest, 0) == if '\n' in c then None else Some(IfHeader(0, c, |c| + 5))
    ensures d == Mini && c == [] ==> IfHeaderAt(d, "$if(" + c + ")" + rest, 0) == None
    ensures d == Mini && c != [] && !IsSpace(c[0]) ==> IfHeaderAt(d, "$if(" + c + ")" + rest, 0) == Some(IfHeader(0, c, |c| + 5))
  {
    var s := "$if(" + c + ")" + rest;
    var e := 4 + |c|;
    assert forall k :: 0 <= k < 4 ==> s[k] == "$if("[k];
    assert forall k :: 4 <= k < e ==> s[k] == c[k - 4];
    assert s[e] == ')';
    IndexOfCharIs(s, ')', 4, e);
    assert s[4..e] == c;
    if d == Mini {
      assert MatchesAt(s, 0, IfOpen, true);
      assert SkipSpaces(s, 3) == 3;
      if c != [] && !IsSpace(c[0]) {
        assert SkipSpaces(s, 4) == 4;
      }
    } else {
      assert MatchesAt(s, 0, IfOpen + "(", false);
      if '\n' in c {
        var k :| 0 <= k < |c| && c[k] == '\n';
        assert s[..e][4 + k] == '\n';
      } else {
        assert forall j :: 4 <= j < e ==> s[..e][j] != '\n';
      }
    }
  }

  /** Recognition of `${c}` for a path `c` holding no '}': Mini needs at
      least one character, Hw4 refuses a line feed. */
  lemma PlaceholderRecognised(d: Dialect, pre: string, c: string, post: string)
    requires '}' !in c
    ensures PlaceholderAt(d, pre + "${" + c + "}" + post, |pre|)
      == if (d == Mini && c == []) || (d == Hw4 && '\n' in c) then None else Some(|pre| + 2 + |c|)
  {
    var s := pre + "${" + c + "}" + post;
    var p := |pre|;
    var e := p + 2 + |c|;
    assert s[p] == '$' && s[p + 1] == '{';
    assert MatchesAt(s, p, "${", false);
    assert forall k :: p + 2 <= k < e ==> s[k] == c[k - p - 2];
    assert s[e] == '}';
    IndexOfCharIs(s, '}', p + 2, e);
    if d == Hw4 {
      if '\n' in c {
        var k :| 0 <= k < |c| && c[k] == '\n';
        assert s[..e][p + 2 + k] == '\n';
      } else {
        assert forall j :: p + 2 <= j < e ==> s[..e][j] != '\n';
      }
    }
  }
}
