/** Properties of the whole renderer: text without directives passes
    through, a placeholder is replaced by the value its path names, an `$if`
    block keeps exactly the branch its condition selects, and a first
    directive without a located block leaves the template as it is. The
    `$foreach` laws are in `ForeachLaws`. */
module TemplateLaws {
  import opened Text
  import opened TemplateSyntax
  import opened TemplateValues
  import opened TemplateEngine

  /** Text in which no '$' occurs. */
  predicate NoDollar(s: string) {
    forall k :: 0 <= k < |s| ==> s[k] != '$'
  }

  lemma NoDollarAppend(x: string, y: string)
    requires NoDollar(x) && NoDollar(y)
    ensures NoDollar(x + y)
  {
    forall k | 0 <= k < |x + y| ensures (x + y)[k] != '$' {
      if k >= |x| { assert (x + y)[k] == y[k - |x|]; }
    }
  }

  /** Only '$' equals '$', even ignoring case. */
  lemma DollarOnlyMatchesDollar(ci: bool, x: char)
    ensures CharEq(ci, x, '$') ==> x == '$'
  {
  }

  /** A word is its own `Trim()`. */
  lemma TrimWord(c: string)
    requires IsWord(c)
    ensures Trim(c) == c
  {
    assert !IsSpace(c[0]);
    assert SkipSpaces(c, 0) == 0;
    assert !IsSpace(c[|c| - 1]);
    assert SkipSpacesBack(c, 0, |c|) == |c|;
    assert c[0..|c|] == c;
  }

  /** A text without '$' holds no tag. */
  lemma NoTagWithoutDollar(s: string, tag: string, ci: bool)
    requires |tag| > 0 && tag[0] == '$' && NoDollar(s)
    ensures IndexOf(s, tag, ci, 0) == -1
  {
    forall j | 0 <= j ensures !MatchesAt(s, j, tag, ci) {
      if j < |s| {
        DollarOnlyMatchesDollar(ci, s[j]);
      }
    }
  }

  /** `ReplaceVariables` copies a text holding no `${`. */
  lemma {:induction false} ReplaceFromPlain(d: Dialect, s: string, model: Value, p: nat)
    requires p <= |s|
    requires forall j :: p <= j ==> !MatchesAt(s, j, "${", false)
    ensures ReplaceFrom(d, s, model, p) == s[p..]
    decreases |s| - p
  {
    if p < |s| {
      ReplaceFromPlain(d, s, model, p + 1);
      assert s[p..] == [s[p]] + s[p + 1..];
    }
  }

  lemma ReplaceVariablesPlain(d: Dialect, s: string, model: Value)
    requires IndexOf(s, "${", false, 0) == -1
    ensures ReplaceVariables(d, s, model) == s
  {
    ReplaceFromPlain(d, s, model, 0);
  }

  /** `ReplaceFrom` copies a stretch without '$'. */
  lemma {:induction false} ReplaceFromCopies(d: Dialect, s: string, model: Value, i: nat, j: nat)
    requires i <= j <= |s|
    requires forall k :: i <= k < j ==> s[k] != '$'
    ensures ReplaceFrom(d, s, model, i) == s[i..j] + ReplaceFrom(d, s, model, j)
    decreases j - i
  {
    if i < j {
      ReplaceFromSkips(d, s, model, i);
      ReplaceFromCopies(d, s, model, i + 1, j);
      SliceCons(s, i, j, ReplaceFrom(d, s, model, j));
    }
  }

  /** `ReplaceFrom` copies a character other than '$'. */
  lemma ReplaceFromSkips(d: Dialect, s: string, model: Value, i: nat)
    requires i < |s| && s[i] != '$'
    ensures ReplaceFrom(d, s, model, i) == [s[i]] + ReplaceFrom(d, s, model, i + 1)
  {
    assert !MatchesAt(s, i, "${", false) by {
      assert !CharEq(false, s[i], "${"[0]);
    }
  }

  /** A slice is its first character followed by the rest. */
  lemma SliceCons(s: string, i: nat, j: nat, r: string)
    requires i < j <= |s|
    ensures s[i..j] + r == [s[i]] + (s[i + 1..j] + r)
  {
    assert s[i..j] == [s[i]] + s[i + 1..j];
  }

  /** One placeholder `${c}` in '$'-free text is replaced by the displayed
      value of the trimmed path `c`, when the version's expression accepts
      it (Mini: `c` not empty; Hw4: no line feed in `c`); the text around it
      is copied. */
  lemma ReplaceOnePlaceholder(d: Dialect, pre: string, c: string, post: string, model: Value)
    requires NoDollar(pre) && NoDollar(post) && '}' !in c
    requires d == Mini ==> c != []
    requires d == Hw4 ==> '\n' !in c
    ensures ReplaceVariables(d, pre + "${" + c + "}" + post, model) == pre + Display(PathValue(d, model, Trim(c))) + post
  {
    var s := pre + "${" + c + "}" + post;
    var p := |pre|;
    var e := p + 2 + |c|;
    PlaceholderRecognised(d, pre, c, post);
    PlaceholderText(pre, c, post);
    ReplaceAround(d, s, model, pre, c, post, p, e);
  }

  /** `ReplaceVariables` on a text holding one recognised placeholder from
      `p` to `e`, with '$'-free text around it. */
  lemma ReplaceAround(d: Dialect, s: string, model: Value, pre: string, c: string, post: string, p: nat, e: nat)
    requires p == |pre| && e < |s| && PlaceholderAt(d, s, p) == Some(e)
    requires s[..p] == pre && s[p + 2..e] == c && s[e + 1..|s|] == post
    requires forall k :: 0 <= k < p ==> s[k] != '$'
    requires forall k :: e + 1 <= k < |s| ==> s[k] != '$'
    ensures ReplaceFrom(d, s, model, 0) == pre + Display(PathValue(d, model, Trim(c))) + post
  {
    var v := Display(PathValue(d, model, Trim(c)));
    ReplaceBefore(d, s, model, pre, p);
    ReplaceFromAt(d, s, model, p, e);
    ReplaceAfter(d, s, model, post, e);
    Assemble(ReplaceFrom(d, s, model, 0), ReplaceFrom(d, s, model, p), ReplaceFrom(d, s, model, e + 1),
      ReplaceFrom(d, s, model, |s|), pre, v, post);
  }

  /** A stretch without `$` at the front is copied ahead of the rest. */
  lemma ReplaceBefore(d: Dialect, s: string, model: Value, pre: string, p: nat)
    requires p <= |s| && s[..p] == pre
    requires forall k :: 0 <= k < p ==> s[k] != '$'
    ensures ReplaceFrom(d, s, model, 0) == pre + ReplaceFrom(d, s, model, p)
  {
    ReplaceFromCopies(d, s, model, 0, p);
    assert s[0..p] == pre;
  }

  /** A tail without `$` is copied as it stands. */
  lemma ReplaceAfter(d: Dialect, s: string, model: Value, post: string, e: nat)
    requires e < |s| && s[e + 1..|s|] == post
    requires forall k :: e + 1 <= k < |s| ==> s[k] != '$'
    ensures ReplaceFrom(d, s, model, e + 1) == post
  {
    ReplaceFromCopies(d, s, model, e + 1, |s|);
    assert ReplaceFrom(d, s, model, |s|) == [];
  }

  /** The pieces of a replaced text put together. */
  lemma Assemble(a: string, b: string, c: string, z: string, pre: string, v: string, post: string)
    requires a == pre + b && b == v + c && c == post + z && z == []
    ensures a == pre + v + post
  {
  }

  /** Where the pieces of `pre ${c} post` lie. */
  lemma PlaceholderText(pre: string, c: string, post: string)
    requires NoDollar(pre) && NoDollar(post)
    ensures var s := pre + "${" + c + "}" + post;
      var e := |pre| + 2 + |c|;
      && e < |s| && s[..|pre|] == pre && s[|pre| + 2..e] == c && s[e + 1..|s|] == post
      && (forall k :: 0 <= k < |pre| ==> s[k] != '$')
      && (forall k :: e + 1 <= k < |s| ==> s[k] != '$')
  {
    var s := pre + "${" + c + "}" + post;
    var e := |pre| + 2 + |c|;
    forall k | 0 <= k < |pre| ensures s[k] != '$' {
      assert s[k] == pre[k];
    }
    forall k | e + 1 <= k < |s| ensures s[k] != '$' {
      assert s[k] == post[k - e - 1];
    }
  }

  /** `ReplaceFrom` at a recognised placeholder. */
  lemma ReplaceFromAt(d: Dialect, s: string, model: Value, p: nat, e: nat)
    requires p < |s| && PlaceholderAt(d, s, p) == Some(e)
    ensures ReplaceFrom(d, s, model, p) == Display(PathValue(d, model, Trim(s[p + 2..e]))) + ReplaceFrom(d, s, model, e + 1)
  {
  }

  /** A template with no directive and no placeholder renders as itself
      (Mini: after its escape cleanup), whatever the model. */
  lemma RenderWithoutDirectives(d: Dialect, fuel: nat, t: string, model: Value)
    requires IndexOf(t, IfOpen, d.IgnoreCase(), 0) == -1
    requires IndexOf(t, ForOpen, d.IgnoreCase(), 0) == -1
    requires IndexOf(t, "${", false, 0) == -1
    ensures RenderFromString(d, fuel, t, model) == Some(if d == Mini then Cleanup(t) else t)
  {
    ReplaceVariablesPlain(d, t, model);
  }

  /** An empty template renders as the empty string in both dialects, for
      any model and without consuming fuel. */
  lemma RenderEmpty(d: Dialect, fuel: nat, model: Value)
    ensures RenderFromString(d, fuel, [], model) == Some([])
  { }

  /** The locator passes over text without '$'. */
  lemma {:induction false} ScanSkips(d: Dialect, text: string, open: string, close: string, i: nat, j: nat, bal: int)
    requires IsTagPair(open, close)
    requires i <= j <= |text|
    requires NoDollar(text[i..j])
    ensures Scan(d, text, open, close, i, bal) == Scan(d, text, open, close, j, bal)
    decreases j - i
  {
    if i < j {
      assert text[i] == text[i..j][0];
      DollarOnlyMatchesDollar(d.IgnoreCase(), text[i]);
      assert open[0] == '$' && close[0] == '$';
      assert !CharEq(d.IgnoreCase(), text[i], open[0]) && !CharEq(d.IgnoreCase(), text[i], close[0]);
      assert text[i + 1..j] == text[i..j][1..];
      ScanSkips(d, text, open, close, i + 1, j, bal);
    }
  }

  /** No `tag` starts anywhere in `s`. */
  predicate NoTag(d: Dialect, s: string, tag: string) {
    forall k :: 0 <= k < |s| ==> !MatchesAt(s, k, tag, d.IgnoreCase())
  }

  /** A tag spelled with '$' at its start and nowhere else. */
  predicate DollarFirst(tag: string) {
    |tag| > 0 && tag[0] == '$' && forall j :: 0 < j < |tag| ==> tag[j] != '$'
  }

  lemma TagsAreDollarFirst()
    ensures DollarFirst(IfOpen) && DollarFirst(IfClose) && DollarFirst(ElseTag)
    ensures DollarFirst(ForOpen) && DollarFirst(ForClose)
  {
  }

  /** A text without '$' holds no tag. */
  lemma NoTagOfPlain(d: Dialect, s: string, tag: string)
    requires |tag| > 0 && tag[0] == '$' && NoDollar(s)
    ensures NoTag(d, s, tag)
  {
    NoTagWithoutDollar(s, tag, d.IgnoreCase());
  }

  /** A text holding no tag has no first occurrence of it. */
  lemma NoTagIndexOf(d: Dialect, s: string, tag: string)
    requires |tag| > 0 && NoTag(d, s, tag)
    ensures IndexOf(s, tag, d.IgnoreCase(), 0) == -1
  {
  }

  /** A stretch of `t` without '$' holds no tag. */
  lemma PlainSpanHasNoTag(d: Dialect, t: string, i: nat, j: nat, tag: string)
    requires i <= j <= |t| && |tag| > 0 && tag[0] == '$'
    requires forall k :: i <= k < j ==> t[k] != '$'
    ensures forall k :: i <= k < j ==> !MatchesAt(t, k, tag, d.IgnoreCase())
  {
    forall k | i <= k < j ensures !CharEq(d.IgnoreCase(), t[k], tag[0]) {
      DollarOnlyMatchesDollar(d.IgnoreCase(), t[k]);
    }
  }

  /** A piece `s` of `t` that ends the text or is followed by a '$' holds
      no occurrence in `t` of a tag it does not hold itself: the tag cannot
      run past the piece, since its '$' comes first. */
  lemma NoTagInContext(d: Dialect, t: string, i: nat, s: string, tag: string)
    requires DollarFirst(tag) && NoTag(d, s, tag)
    requires i + |s| == |t| || (i + |s| < |t| && t[i + |s|] == '$')
    requires forall k :: 0 <= k < |s| ==> t[i + k] == s[k]
    ensures forall k :: i <= k < i + |s| ==> !MatchesAt(t, k, tag, d.IgnoreCase())
  {
    var ci := d.IgnoreCase();
    forall k | i <= k < i + |s| ensures !MatchesAt(t, k, tag, ci) {
      if k + |tag| <= i + |s| {
        assert !MatchesAt(s, k - i, tag, ci);
        var j :| 0 <= j < |tag| && !CharEq(ci, s[k - i + j], tag[j]);
        assert t[i + (k - i + j)] == s[k - i + j];
      } else if k + |tag| <= |t| {
        var j := i + |s| - k;
        DollarOnlyMatchesDollar(ci, tag[j]);
        assert !CharEq(ci, t[k + j], tag[j]);
      }
    }
  }

  /** The locator passes over a stretch holding neither of its tags. */
  lemma {:induction false} ScanSkipsQuiet(d: Dialect, text: string, open: string, close: string, i: nat, j: nat, bal: int)
    requires IsTagPair(open, close)
    requires i <= j <= |text|
    requires forall k :: i <= k < j ==> !MatchesAt(text, k, open, d.IgnoreCase()) && !MatchesAt(text, k, close, d.IgnoreCase())
    ensures Scan(d, text, open, close, i, bal) == Scan(d, text, open, close, j, bal)
    decreases j - i
  {
    if i < j {
      ScanPasses(d, text, open, close, i, bal);
      ScanSkipsQuiet(d, text, open, close, i + 1, j, bal);
    }
  }

  /** The pieces of `parts` one after the other. */
  function Concat(parts: seq<string>): string {
    if parts == [] then [] else parts[0] + Concat(parts[1..])
  }

  /** `pre $if(c) a $else b $endif post`. */
  function IfTemplate(pre: string, c: string, a: string, b: string, post: string): string {
    Concat([pre, "$if(", c, ")", a, "$else", b, "$endif", post])
  }

  /** An `IfTemplate` written out. */
  lemma IfTemplateFlat(pre: string, c: string, a: string, b: string, post: string)
    ensures IfTemplate(pre, c, a, b, post) == pre + "$if(" + c + ")" + a + "$else" + b + "$endif" + post
  {
    var parts := [pre, "$if(", c, ")", a, "$else", b, "$endif", post];
    assert Concat(parts[8..]) == post;
    assert Concat(parts[6..]) == b + "$endif" + post by { assert parts[6..][1..] == parts[7..]; assert parts[7..][1..] == parts[8..]; }
    assert Concat(parts[4..]) == a + "$else" + b + "$endif" + post by { assert parts[4..][1..] == parts[5..]; assert parts[5..][1..] == parts[6..]; }
    assert Concat(parts[2..]) == c + ")" + a + "$else" + b + "$endif" + post by { assert parts[2..][1..] == parts[3..]; assert parts[3..][1..] == parts[4..]; }
    assert Concat(parts) == pre + "$if(" + c + ")" + a + "$else" + b + "$endif" + post by { assert parts[1..][1..] == parts[2..]; }
  }

  /** Where the pieces of an `IfTemplate` lie. */
  lemma IfTemplatePieces(pre: string, c: string, a: string, b: string, post: string)
    ensures var t := IfTemplate(pre, c, a, b, post);
      var p0 := |pre|;
      var p1 := p0 + 5 + |c| + |a|;
      var e := p1 + 5 + |b|;
      && |t| == e + 6 + |post|
      && t[..p0] == pre
      && t[p0..e + 6] == "$if(" + c + ")" + a + "$else" + b + "$endif"
      && t[p0..p0 + 4] == "$if("
      && t[p0 + 3..p1] == "(" + c + ")" + a
      && t[p1..p1 + 5] == "$else"
      && t[p1 + 1..e] == "else" + b
      && t[e..e + 6] == "$endif"
      && t[e + 6..] == post
  {
    IfTemplateFlat(pre, c, a, b, post);
  }

  /** `$if(` is an opening tag the locator counts, in both versions. */
  lemma IfOpensAt(d: Dialect, t: string, p: nat)
    requires p + 4 <= |t| && t[p..p + 4] == "$if("
    ensures OpensAt(d, t, p, IfOpen)
  {
    assert t[p + 3] == t[p..p + 4][3];
    forall k | 0 <= k < 3 ensures CharEq(d.IgnoreCase(), t[p + k], IfOpen[k]) {
      assert t[p + k] == t[p..p + 4][k];
    }
  }

  /** `$else` is neither an `$if` nor an `$endif` tag. */
  lemma ElseIsNoTag(d: Dialect, t: string, p: nat)
    requires p + 5 <= |t| && t[p..p + 5] == "$else"
    ensures !OpensAt(d, t, p, IfOpen) && !IsSubstringAt(d, t, p, IfClose)
  {
    var ci := d.IgnoreCase();
    assert t[p + 1] == t[p..p + 5][1] && t[p + 2] == t[p..p + 5][2];
    assert !CharEq(ci, t[p + 1], IfOpen[1]);
    assert !CharEq(ci, t[p + 2], IfClose[2]);
  }

  /** `$endif` is a closing tag the locator counts. */
  lemma EndifClosesAt(d: Dialect, t: string, e: nat)
    requires e + 6 <= |t| && t[e..e + 6] == "$endif"
    ensures ClosesAt(d, t, e, IfOpen, IfClose)
  {
    var ci := d.IgnoreCase();
    assert t[e + 1] == t[e..e + 6][1];
    assert !CharEq(ci, t[e + 1], IfOpen[1]);
    forall k | 0 <= k < 6 ensures CharEq(ci, t[e + k], IfClose[k]) {
      assert t[e + k] == t[e..e + 6][k];
    }
  }

  /** The `$if` and `$endif` tags the locator counts. */
  predicate QuietFor(d: Dialect, t: string, i: nat, j: nat, open: string, close: string) {
    forall k :: i <= k < j ==> !MatchesAt(t, k, open, d.IgnoreCase()) && !MatchesAt(t, k, close, d.IgnoreCase())
  }

  /** The locator on `$if( ... $else ... $endif` where the gaps hold neither
      `$if` nor `$endif`. */
  lemma ScanIfElseBlock(d: Dialect, t: string, p0: nat, p1: nat, e: nat)
    requires p0 + 4 <= p1 && p1 + 5 <= e && e + 6 <= |t|
    requires t[p0..p0 + 4] == "$if(" && t[p1..p1 + 5] == "$else" && t[e..e + 6] == "$endif"
    requires QuietFor(d, t, p0 + 3, p1, IfOpen, IfClose) && QuietFor(d, t, p1 + 1, e, IfOpen, IfClose)
    ensures MatchingEnd(d, t, p0, IfOpen, IfClose) == e
  {
    ScanIfThenPart(d, t, p0, p1);
    ScanElsePart(d, t, p1, e);
    assert MatchingEnd(d, t, p0, IfOpen, IfClose) == Scan(d, t, IfOpen, IfClose, p0, 0);
  }

  /** The locator from `$if(` to the `$else`, at depth one. */
  lemma ScanIfThenPart(d: Dialect, t: string, p0: nat, p1: nat)
    requires p0 + 4 <= p1 && p1 + 5 <= |t|
    requires t[p0..p0 + 4] == "$if(" && t[p1..p1 + 5] == "$else"
    requires QuietFor(d, t, p0 + 3, p1, IfOpen, IfClose)
    ensures Scan(d, t, IfOpen, IfClose, p0, 0) == Scan(d, t, IfOpen, IfClose, p1 + 1, 1)
  {
    IfOpensAt(d, t, p0);
    ScanOpens(d, t, IfOpen, IfClose, p0, 0);
    ScanSkipsQuiet(d, t, IfOpen, IfClose, p0 + 3, p1, 1);
    ElseIsNoTag(d, t, p1);
    ScanPasses(d, t, IfOpen, IfClose, p1, 1);
  }

  /** The locator from after the `$else` '$' to the balancing `$endif`. */
  lemma ScanElsePart(d: Dialect, t: string, p1: nat, e: nat)
    requires p1 + 5 <= e && e + 6 <= |t| && t[e..e + 6] == "$endif"
    requires QuietFor(d, t, p1 + 1, e, IfOpen, IfClose)
    ensures Scan(d, t, IfOpen, IfClose, p1 + 1, 1) == e
  {
    ScanSkipsQuiet(d, t, IfOpen, IfClose, p1 + 1, e, 1);
    EndifClosesAt(d, t, e);
    ScanBalances(d, t, IfOpen, IfClose, e);
  }

  /** Branches the `$if` locator and the `$else` split pass over: neither
      holds an `$if` or an `$endif` tag, and the first holds no `$else`.
      Other directives, such as a nested `$foreach` block, may stand in them. */
  predicate IfBranches(d: Dialect, a: string, b: string) {
    && NoTag(d, a, IfOpen) && NoTag(d, a, IfClose) && NoTag(d, a, ElseTag)
    && NoTag(d, b, IfOpen) && NoTag(d, b, IfClose)
  }

  /** Where the characters of an `IfTemplate` lie. */
  lemma IfTemplateChars(pre: string, c: string, a: string, b: string, post: string)
    ensures var t := IfTemplate(pre, c, a, b, post);
      var h := |pre| + 5 + |c|;
      var p1 := h + |a|;
      && p1 + 11 + |b| <= |t|
      && t[|pre| + 3] == '(' && t[h - 1] == ')' && t[p1] == '$' && t[p1 + 5 + |b|] == '$'
      && (forall k :: 0 <= k < |pre| ==> t[k] == pre[k])
      && t[|pre|] == '$' && t[|pre| + 1] == 'i' && t[|pre| + 2] == 'f'
      && (forall k :: 0 <= k < |c| ==> t[|pre| + 4 + k] == c[k])
      && (forall k :: 0 <= k < |a| ==> t[h + k] == a[k])
      && (forall k :: 0 <= k < |b| ==> t[p1 + 5 + k] == b[k])
      && t[p1 + 1] == 'e' && t[p1 + 2] == 'l' && t[p1 + 3] == 's' && t[p1 + 4] == 'e'
  {
    IfTemplateFlat(pre, c, a, b, post);
  }

  /** The header `(c)` of an `IfTemplate` holds no tag. */
  lemma IfConditionQuiet(d: Dialect, pre: string, c: string, a: string, b: string, post: string)
    requires IsWord(c)
    ensures QuietFor(d, IfTemplate(pre, c, a, b, post), |pre| + 3, |pre| + 5 + |c|, IfOpen, IfClose)
  {
    var t := IfTemplate(pre, c, a, b, post);
    var h := |pre| + 5 + |c|;
    IfTemplateChars(pre, c, a, b, post);
    forall k | |pre| + 3 <= k < h ensures t[k] != '$' {
      if |pre| + 4 <= k < h - 1 {
        assert t[|pre| + 4 + (k - |pre| - 4)] == c[k - |pre| - 4];
      }
    }
    PlainSpanHasNoTag(d, t, |pre| + 3, h, IfOpen);
    PlainSpanHasNoTag(d, t, |pre| + 3, h, IfClose);
  }

  /** The two branches of an `IfTemplate`, and `else` between them, hold no
      tag the locator counts. */
  lemma IfBranchesQuiet(d: Dialect, pre: string, c: string, a: string, b: string, post: string)
    requires IfBranches(d, a, b)
    ensures var t := IfTemplate(pre, c, a, b, post);
      var h := |pre| + 5 + |c|;
      && QuietFor(d, t, h, h + |a|, IfOpen, IfClose)
      && QuietFor(d, t, h + |a| + 1, h + |a| + 5 + |b|, IfOpen, IfClose)
  {
    var t := IfTemplate(pre, c, a, b, post);
    var h := |pre| + 5 + |c|;
    var p1 := h + |a|;
    IfTemplateChars(pre, c, a, b, post);
    TagsAreDollarFirst();
    NoTagInContext(d, t, h, a, IfOpen);
    NoTagInContext(d, t, h, a, IfClose);
    PlainSpanHasNoTag(d, t, p1 + 1, p1 + 5, IfOpen);
    PlainSpanHasNoTag(d, t, p1 + 1, p1 + 5, IfClose);
    NoTagInContext(d, t, p1 + 5, b, IfOpen);
    NoTagInContext(d, t, p1 + 5, b, IfClose);
  }

  /** The `$endif` that closes the block of an `IfTemplate`. */
  lemma IfTemplateEnd(d: Dialect, pre: string, c: string, a: string, b: string, post: string)
    requires IfBranches(d, a, b) && IsWord(c)
    ensures MatchingEnd(d, IfTemplate(pre, c, a, b, post), |pre|, IfOpen, IfClose) == |pre| + 10 + |c| + |a| + |b|
  {
    var t := IfTemplate(pre, c, a, b, post);
    IfTemplatePieces(pre, c, a, b, post);
    var p0 := |pre|;
    var h := p0 + 5 + |c|;
    var p1 := h + |a|;
    IfConditionQuiet(d, pre, c, a, b, post);
    IfBranchesQuiet(d, pre, c, a, b, post);
    assert QuietFor(d, t, p0 + 3, p1, IfOpen, IfClose);
    ScanIfElseBlock(d, t, p0, p1, p1 + 5 + |b|);
  }

  /** `$if(c)` with a word `c` parses in both versions, with `c` as its group. */
  lemma IfHeaderOfWord(d: Dialect, c: string, rest: string)
    requires IsWord(c)
    ensures FirstIfHeader(d, "$if(" + c + ")" + rest, 0) == Some(IfHeader(0, c, |c| + 5))
  {
    var s := "$if(" + c + ")" + rest;
    var e := 4 + |c|;
    assert s[e] == ')';
    assert forall j :: 4 <= j < e ==> s[j] == c[j - 4];
    IndexOfCharIs(s, ')', 4, e);
    assert s[4..e] == c;
    if d == Mini {
      assert MatchesAt(s, 0, IfOpen, true);
      assert SkipSpaces(s, 3) == 3;
      assert SkipSpaces(s, 4) == 4 by { assert !IsSpace(s[4]); }
    } else {
      assert MatchesAt(s, 0, IfOpen + "(", false);
      assert forall j :: 4 <= j < e ==> s[..e][j] != '\n';
    }
    assert IfHeaderAt(d, s, 0) == Some(IfHeader(0, c, |c| + 5));
  }

  /** The block at `start` from its end, its header and its body. */
  lemma IfBlockIs(d: Dialect, t: string, start: nat, end: nat, h: IfHeader, body: string)
    requires start <= end && end + |IfClose| <= |t|
    requires MatchingEnd(d, t, start, IfOpen, IfClose) == end
    requires FirstIfHeader(d, t[start..end + |IfClose|], 0) == Some(h)
    requires start + h.len <= end && t[start + h.len..end] == body
    ensures IfBlockAt(d, t, start) == Some(IfBlock(h, body, end))
  {
    var r := IfBlockAt(d, t, start);
    assert r.Some?;
    assert r.value.end == end;
    assert Some(r.value.header) == Some(h);
    assert r.value.body == body;
  }

  /** The slices of an `IfTemplate` around its block. */
  lemma IfTemplateBlockText(pre: string, c: string, a: string, b: string, post: string)
    ensures var t := IfTemplate(pre, c, a, b, post);
      var e := |pre| + 10 + |c| + |a| + |b|;
      && e + 6 <= |t|
      && t[|pre|..e + 6] == "$if(" + c + ")" + (a + "$else" + b + "$endif")
      && t[|pre| + |c| + 5..e] == a + "$else" + b
      && t[..|pre|] == pre && t[e + 6..] == post
  {
    IfTemplateFlat(pre, c, a, b, post);
  }

  /** The block of an `IfTemplate`: header `c`, body `a $else b`. */
  lemma IfTemplateBlock(d: Dialect, pre: string, c: string, a: string, b: string, post: string)
    requires IfBranches(d, a, b) && IsWord(c)
    ensures IfBlockAt(d, IfTemplate(pre, c, a, b, post), |pre|)
      == Some(IfBlock(IfHeader(0, c, |c| + 5), a + "$else" + b, |pre| + 10 + |c| + |a| + |b|))
  {
    var t := IfTemplate(pre, c, a, b, post);
    var e := |pre| + 10 + |c| + |a| + |b|;
    IfTemplateEnd(d, pre, c, a, b, post);
    IfTemplateBlockText(pre, c, a, b, post);
    IfBlockFrom(d, t, |pre|, c, a + "$else" + b, e);
  }

  /** The block at `start` of a text that holds `$if(c)body$endif` there,
      `e` being where its matching `$endif` starts. */
  lemma IfBlockFrom(d: Dialect, t: string, start: nat, c: string, body: string, e: nat)
    requires IsWord(c)
    requires e == start + |c| + 5 + |body| && e + 6 <= |t|
    requires MatchingEnd(d, t, start, IfOpen, IfClose) == e
    requires t[start..e + 6] == "$if(" + c + ")" + (body + "$endif")
    requires t[start + |c| + 5..e] == body
    ensures IfBlockAt(d, t, start) == Some(IfBlock(IfHeader(0, c, |c| + 5), body, e))
  {
    IfHeaderOfWord(d, c, body + "$endif");
    IfBlockIs(d, t, start, e, IfHeader(0, c, |c| + 5), body);
  }

  /** `a $else b` splits into `a` and `b` when `a` holds no `$else`. */
  lemma SplitElseOf(d: Dialect, a: string, b: string)
    requires NoTag(d, a, ElseTag)
    ensures SplitElse(d, a + "$else" + b) == (a, b)
  {
    var body := a + "$else" + b;
    TagsAreDollarFirst();
    NoTagInContext(d, body, 0, a, ElseTag);
    assert MatchesAt(body, |a|, ElseTag, d.IgnoreCase()) by {
      forall k | 0 <= k < 5 ensures CharEq(d.IgnoreCase(), body[|a| + k], ElseTag[k]) {
        assert body[|a| + k] == "$else"[k];
      }
    }
    IndexOfIs(body, ElseTag, d.IgnoreCase(), 0, |a|);
    assert body[|a| + 5..] == b;
  }

  /** A text whose first '$' is at `p`, where `tag` starts and `other`
      does not, finds `tag` there first and `other` only later. */
  lemma FirstTagAt(d: Dialect, t: string, p: nat, tag: string, other: string)
    requires |tag| > 0 && tag[0] == '$' && |other| > 0 && other[0] == '$'
    requires MatchesAt(t, p, tag, d.IgnoreCase()) && !MatchesAt(t, p, other, d.IgnoreCase())
    requires forall k :: 0 <= k < p ==> t[k] != '$'
    ensures IndexOf(t, tag, d.IgnoreCase(), 0) == p
    ensures IndexOf(t, other, d.IgnoreCase(), 0) == -1 || p < IndexOf(t, other, d.IgnoreCase(), 0)
  {
    PlainSpanHasNoTag(d, t, 0, p, tag);
    PlainSpanHasNoTag(d, t, 0, p, other);
    IndexOfIs(t, tag, d.IgnoreCase(), 0, p);
  }

  /** The first directive of an `IfTemplate` with a '$'-free prefix is its `$if`. */
  lemma IfTemplateFirst(d: Dialect, pre: string, c: string, a: string, b: string, post: string)
    requires NoDollar(pre)
    ensures var t := IfTemplate(pre, c, a, b, post);
      && IndexOf(t, IfOpen, d.IgnoreCase(), 0) == |pre|
      && (IndexOf(t, ForOpen, d.IgnoreCase(), 0) == -1 || |pre| < IndexOf(t, ForOpen, d.IgnoreCase(), 0))
  {
    var t := IfTemplate(pre, c, a, b, post);
    var ci := d.IgnoreCase();
    var p0 := |pre|;
    IfTemplateChars(pre, c, a, b, post);
    forall k | 0 <= k < p0 ensures t[k] != '$' {
      assert t[k] == pre[k];
    }
    assert MatchesAt(t, p0, IfOpen, ci) by {
      forall k | 0 <= k < 3 ensures CharEq(ci, t[p0 + k], IfOpen[k]) { }
    }
    assert !CharEq(ci, t[p0 + 1], ForOpen[1]);
    FirstTagAt(d, t, p0, IfOpen, ForOpen);
  }

  /** `ProcessLogic` hands the text to `ProcessIf` when the first directive is an `$if`. */
  lemma LogicStartsWithIf(d: Dialect, fuel: nat, t: string, model: Value, p: nat)
    requires p <= |t|
    requires IndexOf(t, IfOpen, d.IgnoreCase(), 0) == p
    requires IndexOf(t, ForOpen, d.IgnoreCase(), 0) == -1 || p < IndexOf(t, ForOpen, d.IgnoreCase(), 0)
    ensures ProcessLogic(d, fuel + 1, t, model) == ProcessIf(d, fuel, t, model, p)
  {
  }

  /** `ProcessIf` on a located block is `SpliceIf` of that block. */
  lemma IfAtBlock(d: Dialect, fuel: nat, t: string, model: Value, start: nat, blk: IfBlock)
    requires start <= |t| && IfBlockAt(d, t, start) == Some(blk)
    ensures start <= blk.end + |IfClose| <= |t|
    ensures ProcessIf(d, fuel, t, model, start) == SpliceIf(d, fuel, t, model, start, blk)
  {
  }

  /** A '$'-free text has no directive, so `ProcessLogic` returns it as it is. */
  lemma PlainIsProcessed(d: Dialect, fuel: nat, x: string, model: Value)
    requires NoDollar(x)
    ensures ProcessLogic(d, fuel, x, model) == Some(x)
  {
    NoTagWithoutDollar(x, IfOpen, d.IgnoreCase());
    NoTagWithoutDollar(x, ForOpen, d.IgnoreCase());
  }

  /** The branch `ProcessIf` chooses in a block with header `c` and body `a $else b`. */
  lemma PlainChoice(d: Dialect, model: Value, blk: IfBlock, c: string, a: string, b: string, x: string)
    requires SplitElse(d, blk.body) == (a, b) && Trim(blk.header.cond) == c
    requires x == if IsTrue(d, PathValue(d, model, c)) then a else b
    ensures x == ChosenBranch(d, model, blk)
  {
    var v := PathValue(d, model, Trim(blk.header.cond));
    assert v == PathValue(d, model, c);
    if IsTrue(d, v) {
      assert x == a;
    } else {
      assert x == b;
    }
  }

  /** What the `$if` step needs to know about an `IfTemplate`. */
  lemma IfTemplateShape(d: Dialect, pre: string, c: string, a: string, b: string, post: string, blk: IfBlock)
    requires NoDollar(pre) && IfBranches(d, a, b) && IsWord(c)
    requires blk == IfBlock(IfHeader(0, c, |c| + 5), a + "$else" + b, |pre| + 10 + |c| + |a| + |b|)
    ensures var t := IfTemplate(pre, c, a, b, post);
      && |pre| <= blk.end && blk.end + |IfClose| <= |t| && t[..|pre|] == pre && t[blk.end + |IfClose|..] == post
      && IndexOf(t, IfOpen, d.IgnoreCase(), 0) == |pre|
      && (IndexOf(t, ForOpen, d.IgnoreCase(), 0) == -1 || |pre| < IndexOf(t, ForOpen, d.IgnoreCase(), 0))
      && IfBlockAt(d, t, |pre|) == Some(blk)
  {
    IfTemplateFirst(d, pre, c, a, b, post);
    IfTemplateBlock(d, pre, c, a, b, post);
    IfTemplateBlockText(pre, c, a, b, post);
  }

  /** The branch an `IfTemplate` keeps: `a` when `c` is true in the model. */
  function Chosen(d: Dialect, model: Value, c: string, a: string, b: string): string {
    if IsTrue(d, PathValue(d, model, c)) then a else b
  }

  /** An `$if` block that is the first directive is replaced by the branch
      its condition selects, itself expanded first; the other branch, the
      header and the tags are dropped, and the text around the block is
      expanded again. The branches may hold other directives: a `$foreach`
      in the branch not taken is dropped unexpanded. */
  lemma IfChoosesBranch(d: Dialect, fuel: nat, pre: string, c: string, a: string, b: string, post: string, model: Value)
    requires NoDollar(pre) && IfBranches(d, a, b) && IsWord(c)
    ensures ProcessLogic(d, fuel + 1, IfTemplate(pre, c, a, b, post), model)
      == match ProcessLogic(d, fuel, Chosen(d, model, c, a, b), model)
         case None => None
         case Some(inner) => ProcessLogic(d, fuel, pre + inner + post, model)
  {
    var t := IfTemplate(pre, c, a, b, post);
    var blk := IfBlock(IfHeader(0, c, |c| + 5), a + "$else" + b, |pre| + 10 + |c| + |a| + |b|);
    IfTemplateShape(d, pre, c, a, b, post, blk);
    var x := Chosen(d, model, c, a, b);
    SplitElseOf(d, a, b);
    TrimWord(c);
    PlainChoice(d, model, blk, c, a, b, x);
    IfStep(d, fuel, t, model, pre, blk, x, post);
  }

  /** The `$if` step on a text whose first directive opens the block `blk`
      right after `pre`. */
  lemma IfStep(d: Dialect, fuel: nat, t: string, model: Value, pre: string, blk: IfBlock, x: string, post: string)
    requires |pre| <= |t| && t[..|pre|] == pre
    requires IndexOf(t, IfOpen, d.IgnoreCase(), 0) == |pre|
    requires IndexOf(t, ForOpen, d.IgnoreCase(), 0) == -1 || |pre| < IndexOf(t, ForOpen, d.IgnoreCase(), 0)
    requires IfBlockAt(d, t, |pre|) == Some(blk) && t[blk.end + |IfClose|..] == post
    requires x == ChosenBranch(d, model, blk)
    ensures ProcessLogic(d, fuel + 1, t, model)
      == match ProcessLogic(d, fuel, x, model)
         case None => None
         case Some(inner) => ProcessLogic(d, fuel, pre + inner + post, model)
  {
    LogicStartsWithIf(d, fuel, t, model, |pre|);
    IfAtBlock(d, fuel, t, model, |pre|, blk);
    SpliceIfIs(d, fuel, t, model, pre, blk, x, post);
  }

  /** `SpliceIf` in terms of the text before and after the block. */
  lemma SpliceIfIs(d: Dialect, fuel: nat, t: string, model: Value, pre: string, blk: IfBlock, x: string, post: string)
    requires |pre| <= blk.end && blk.end + |IfClose| <= |t|
    requires t[..|pre|] == pre && t[blk.end + |IfClose|..] == post
    requires x == ChosenBranch(d, model, blk)
    ensures SpliceIf(d, fuel, t, model, |pre|, blk)
      == match ProcessLogic(d, fuel, x, model)
         case None => None
         case Some(inner) => ProcessLogic(d, fuel, pre + inner + post, model)
  {
    var r := ProcessLogic(d, fuel, x, model);
    SpliceIfUnfold(d, fuel, t, model, |pre|, blk, r);
    if r.Some? {
      SplicedText(t, |pre|, blk.end + |IfClose|, pre, r.value, post);
      SameText(d, fuel, t[..|pre|] + r.value + t[blk.end + |IfClose|..], pre + r.value + post, model);
    }
  }

  /** `SpliceIf` for the expansion `r` of the chosen branch, on slices. */
  lemma SpliceIfUnfold(d: Dialect, fuel: nat, t: string, model: Value, start: nat, blk: IfBlock, r: Option<string>)
    requires start <= blk.end + |IfClose| <= |t|
    requires ProcessLogic(d, fuel, ChosenBranch(d, model, blk), model) == r
    ensures r.None? ==> SpliceIf(d, fuel, t, model, start, blk) == None
    ensures r.Some? ==> SpliceIf(d, fuel, t, model, start, blk) == ProcessLogic(d, fuel, t[..start] + r.value + t[blk.end + |IfClose|..], model)
  {
    match r
    case None =>
    case Some(inner) =>
      var s := t[..start] + inner + t[blk.end + |IfClose|..];
      assert SpliceIf(d, fuel, t, model, start, blk) == ProcessLogic(d, fuel, s, model);
  }

  /** The text around a replaced stretch, with the replacement between. */
  lemma SplicedText(t: string, i: nat, j: nat, pre: string, inner: string, post: string)
    requires i <= j <= |t| && t[..i] == pre && t[j..] == post
    ensures t[..i] + inner + t[j..] == pre + inner + post
  {
  }

  /** Equal texts expand alike. */
  lemma SameText(d: Dialect, fuel: nat, s1: string, s2: string, model: Value)
    requires s1 == s2
    ensures ProcessLogic(d, fuel, s1, model) == ProcessLogic(d, fuel, s2, model)
  {
  }

  /** Text without '$' meets `IfBranches`. */
  lemma PlainBranches(d: Dialect, a: string, b: string)
    requires NoDollar(a) && NoDollar(b)
    ensures IfBranches(d, a, b)
  {
    NoTagOfPlain(d, a, IfOpen);
    NoTagOfPlain(d, a, IfClose);
    NoTagOfPlain(d, a, ElseTag);
    NoTagOfPlain(d, b, IfOpen);
    NoTagOfPlain(d, b, IfClose);
  }

  /** An `$if` block with plain branches keeps exactly the branch its
      condition selects, and drops the header, the other branch and the tags;
      the text around it is unchanged. */
  lemma IfKeepsOneBranch(d: Dialect, fuel: nat, pre: string, c: string, a: string, b: string, post: string, model: Value)
    requires NoDollar(pre) && NoDollar(a) && NoDollar(b) && NoDollar(post) && IsWord(c)
    ensures ProcessLogic(d, fuel + 1, IfTemplate(pre, c, a, b, post), model)
      == Some(pre + (if IsTrue(d, PathValue(d, model, c)) then a else b) + post)
  {
    var x := Chosen(d, model, c, a, b);
    PlainBranches(d, a, b);
    IfChoosesBranch(d, fuel, pre, c, a, b, post, model);
    PlainIsProcessed(d, fuel, x, model);
    NoDollarAppend(pre, x);
    NoDollarAppend(pre + x, post);
    PlainIsProcessed(d, fuel, pre + x + post, model);
  }

  /** A false condition drops the first branch whatever it holds, nested
      directives included: with a plain else branch and plain text around
      the block, the result is that text with the else branch in the
      block's place. */
  lemma FalseIfDropsFirstBranch(d: Dialect, fuel: nat, pre: string, c: string, a: string, b: string, post: string, model: Value)
    requires NoDollar(pre) && NoDollar(b) && NoDollar(post) && IsWord(c)
    requires NoTag(d, a, IfOpen) && NoTag(d, a, IfClose) && NoTag(d, a, ElseTag)
    requires !IsTrue(d, PathValue(d, model, c))
    ensures ProcessLogic(d, fuel + 1, IfTemplate(pre, c, a, b, post), model) == Some(pre + b + post)
  {
    NoTagOfPlain(d, b, IfOpen);
    NoTagOfPlain(d, b, IfClose);
    IfChoosesBranch(d, fuel, pre, c, a, b, post, model);
    PlainIsProcessed(d, fuel, b, model);
    NoDollarAppend(pre, b);
    NoDollarAppend(pre + b, post);
    PlainIsProcessed(d, fuel, pre + b + post, model);
  }

  /** The first directive, an `$if` without a located block (no balancing
      `$endif`, or a header the expression refuses), leaves the whole text
      as it is, the directives after it included. */
  lemma MalformedIfLeavesText(d: Dialect, fuel: nat, t: string, model: Value, p: nat)
    requires p <= |t|
    requires IndexOf(t, IfOpen, d.IgnoreCase(), 0) == p
    requires IndexOf(t, ForOpen, d.IgnoreCase(), 0) == -1 || p < IndexOf(t, ForOpen, d.IgnoreCase(), 0)
    requires IfBlockAt(d, t, p).None?
    ensures ProcessLogic(d, fuel + 1, t, model) == Some(t)
  {
    LogicStartsWithIf(d, fuel, t, model, p);
  }

  /** An `$if(` with no `$endif` after it: the text comes back as it is,
      whatever follows, `$foreach` blocks included. */
  lemma UnclosedIfLeavesText(d: Dialect, fuel: nat, pre: string, rest: string, model: Value)
    requires NoDollar(pre) && NoTag(d, rest, IfOpen) && NoTag(d, rest, IfClose)
    ensures ProcessLogic(d, fuel + 1, pre + "$if(" + rest, model) == Some(pre + "$if(" + rest)
  {
    var t := pre + "$if(" + rest;
    var p0 := |pre|;
    UnclosedIfText(pre, rest);
    UnclosedIfFirst(d, t, p0);
    UnclosedIfScan(d, t, p0, rest);
    assert IfBlockAt(d, t, p0).None?;
    MalformedIfLeavesText(d, fuel, t, model, p0);
  }

  /** Where the pieces of `pre $if( rest` lie. */
  lemma UnclosedIfText(pre: string, rest: string)
    ensures var t := pre + "$if(" + rest;
      && |t| == |pre| + 4 + |rest|
      && (forall k :: 0 <= k < |pre| ==> t[k] == pre[k])
      && t[|pre|..|pre| + 4] == "$if("
      && (forall k :: 0 <= k < |rest| ==> t[|pre| + 4 + k] == rest[k])
  {
  }

  /** The first directive of `pre $if( rest` is its `$if`. */
  lemma UnclosedIfFirst(d: Dialect, t: string, p0: nat)
    requires p0 + 4 <= |t| && t[p0..p0 + 4] == "$if(" && forall k :: 0 <= k < p0 ==> t[k] != '$'
    ensures IndexOf(t, IfOpen, d.IgnoreCase(), 0) == p0
    ensures IndexOf(t, ForOpen, d.IgnoreCase(), 0) == -1 || p0 < IndexOf(t, ForOpen, d.IgnoreCase(), 0)
  {
    var ci := d.IgnoreCase();
    assert MatchesAt(t, p0, IfOpen, ci) by {
      forall k | 0 <= k < 3 ensures CharEq(ci, t[p0 + k], IfOpen[k]) {
        assert t[p0 + k] == t[p0..p0 + 4][k];
      }
    }
    assert t[p0 + 1] == t[p0..p0 + 4][1];
    assert !CharEq(ci, t[p0 + 1], ForOpen[1]);
    FirstTagAt(d, t, p0, IfOpen, ForOpen);
  }

  /** The locator finds no `$endif` for an `$if(` followed by text holding
      neither tag. */
  lemma UnclosedIfScan(d: Dialect, t: string, p0: nat, rest: string)
    requires p0 + 4 + |rest| == |t| && t[p0..p0 + 4] == "$if("
    requires forall k :: 0 <= k < |rest| ==> t[p0 + 4 + k] == rest[k]
    requires NoTag(d, rest, IfOpen) && NoTag(d, rest, IfClose)
    ensures MatchingEnd(d, t, p0, IfOpen, IfClose) == -1
  {
    IfOpensAt(d, t, p0);
    ScanOpens(d, t, IfOpen, IfClose, p0, 0);
    assert t[p0 + 3] == t[p0..p0 + 4][3];
    PlainSpanHasNoTag(d, t, p0 + 3, p0 + 4, IfOpen);
    PlainSpanHasNoTag(d, t, p0 + 3, p0 + 4, IfClose);
    TagsAreDollarFirst();
    NoTagInContext(d, t, p0 + 4, rest, IfOpen);
    NoTagInContext(d, t, p0 + 4, rest, IfClose);
    ScanSkipsQuiet(d, t, IfOpen, IfClose, p0 + 3, |t|, 1);
    ScanEnds(d, t, IfOpen, IfClose, |t|, 1);
    assert MatchingEnd(d, t, p0, IfOpen, IfClose) == Scan(d, t, IfOpen, IfClose, p0, 0);
  }
}
