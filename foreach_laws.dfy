/** Properties of the `$foreach` block: the loop emits one pass of its body
    per item of the collection, in order; a missing or non-collection value
    emits nothing; and a Hw4 header without `var` leaves the template as it
    is, later directives included. */
module ForeachLaws {
  import opened Text
  import opened TemplateSyntax
  import opened TemplateValues
  import opened TemplateEngine
  import opened TemplateLaws

  /** `pre head body $endfor post`. */
  function LoopTemplate(pre: string, head: string, body: string, post: string): string {
    pre + head + body + "$endfor" + post
  }

  /** The header `$foreach(var x in p)`. */
  function VarHeader(x: string, p: string): string {
    "$foreach(var " + x + " in " + p + ")"
  }

  /** The header `$foreach(x in p)`, without `var`. */
  function BareHeader(x: string, p: string): string {
    "$foreach(" + x + " in " + p + ")"
  }

  /** A collection path the header expression reads whole: it starts with a
      character other than white space and holds no ')' and no '$'. */
  predicate IsListPath(p: string) {
    p != [] && !IsSpace(p[0]) && ')' !in p && '$' !in p
  }

  /** A header text: `$foreach(` and then no other '$'. */
  predicate IsHead(head: string) {
    |head| >= 9 && head[..9] == "$foreach(" && forall k :: 1 <= k < |head| ==> head[k] != '$'
  }

  /** Both header forms are header texts. */
  lemma HeadersAreHeads(x: string, p: string)
    requires IsWord(x) && IsListPath(p)
    ensures IsHead(VarHeader(x, p)) && |VarHeader(x, p)| == |x| + |p| + 18
    ensures IsHead(BareHeader(x, p)) && |BareHeader(x, p)| == |x| + |p| + 14
  {
    HeadIsHead("$foreach(var ", x, p);
    HeadIsHead("$foreach(", x, p);
  }

  /** `open x in p)` is a header text when `open` is. */
  lemma HeadIsHead(open: string, x: string, p: string)
    requires |open| >= 9 && open[..9] == "$foreach(" && forall k :: 1 <= k < |open| ==> open[k] != '$'
    requires IsWord(x) && IsListPath(p)
    ensures IsHead(open + x + " in " + p + ")")
  {
    var h := open + x + " in " + p + ")";
    LoopTextOfConcat(open, x, p, "");
    assert h + "" == h;
    var b := |open|;
    forall k | 1 <= k < |h| ensures h[k] != '$' {
      if k < b {
        assert h[k] == open[k];
      } else if k < b + |x| {
        assert h[b + (k - b)] == x[k - b];
      } else if b + |x| + 4 <= k < b + |x| + 4 + |p| {
        assert h[b + |x| + 4 + (k - b - |x| - 4)] == p[k - b - |x| - 4];
      }
    }
    assert h[..9] == open[..9];
  }

  /** Where the pieces of a `LoopTemplate` lie. */
  lemma LoopTemplateChars(pre: string, head: string, body: string, post: string)
    ensures var t := LoopTemplate(pre, head, body, post);
      var hb := |pre| + |head|;
      var e := hb + |body|;
      && |t| == e + 7 + |post|
      && (forall k :: 0 <= k < |pre| ==> t[k] == pre[k])
      && (forall k :: 0 <= k < |head| ==> t[|pre| + k] == head[k])
      && (forall k :: 0 <= k < |body| ==> t[hb + k] == body[k])
      && t[e..e + 7] == "$endfor"
      && t[..|pre|] == pre && t[e + 7..] == post
      && t[|pre|..e + 7] == head + (body + "$endfor")
  {
  }

  /** `$foreach(` is an opening tag the locator counts, in both versions. */
  lemma ForOpensAt(d: Dialect, t: string, p: nat)
    requires p + 9 <= |t| && t[p..p + 9] == "$foreach("
    ensures OpensAt(d, t, p, ForOpen)
  {
    assert t[p + 8] == t[p..p + 9][8];
    forall k | 0 <= k < 8 ensures CharEq(d.IgnoreCase(), t[p + k], ForOpen[k]) {
      assert t[p + k] == t[p..p + 9][k];
    }
  }

  /** `$endfor` is a closing tag the locator counts. */
  lemma EndforClosesAt(d: Dialect, t: string, e: nat)
    requires e + 7 <= |t| && t[e..e + 7] == "$endfor"
    ensures ClosesAt(d, t, e, ForOpen, ForClose)
  {
    var ci := d.IgnoreCase();
    assert t[e + 1] == t[e..e + 7][1];
    assert !CharEq(ci, t[e + 1], ForOpen[1]);
    forall k | 0 <= k < 7 ensures CharEq(ci, t[e + k], ForClose[k]) {
      assert t[e + k] == t[e..e + 7][k];
    }
  }

  /** The header of a `LoopTemplate` sits at `|pre|` and holds no tag after its '$'. */
  lemma LoopHeadAt(d: Dialect, pre: string, head: string, body: string, post: string)
    requires IsHead(head)
    ensures var t := LoopTemplate(pre, head, body, post);
      && |pre| + 9 <= |t| && t[|pre|..|pre| + 9] == "$foreach("
      && QuietFor(d, t, |pre| + 8, |pre| + |head|, ForOpen, ForClose)
  {
    var t := LoopTemplate(pre, head, body, post);
    var p0 := |pre|;
    LoopTemplateChars(pre, head, body, post);
    assert t[p0..p0 + 9] == "$foreach(" by {
      forall k | 0 <= k < 9 ensures t[p0 + k] == "$foreach("[k] {
        assert head[..9][k] == head[k];
      }
    }
    forall k | p0 + 8 <= k < p0 + |head| ensures t[k] != '$' {
      assert t[p0 + (k - p0)] == head[k - p0];
    }
    PlainSpanHasNoTag(d, t, p0 + 8, p0 + |head|, ForOpen);
    PlainSpanHasNoTag(d, t, p0 + 8, p0 + |head|, ForClose);
  }

  /** The body of a `LoopTemplate` holds no tag the locator counts. */
  lemma LoopBodyQuiet(d: Dialect, pre: string, head: string, body: string, post: string)
    requires NoTag(d, body, ForOpen) && NoTag(d, body, ForClose)
    ensures var hb := |pre| + |head|;
      QuietFor(d, LoopTemplate(pre, head, body, post), hb, hb + |body|, ForOpen, ForClose)
  {
    var t := LoopTemplate(pre, head, body, post);
    var hb := |pre| + |head|;
    LoopTemplateChars(pre, head, body, post);
    assert t[hb + |body|] == t[hb + |body|..hb + |body| + 7][0];
    TagsAreDollarFirst();
    NoTagInContext(d, t, hb, body, ForOpen);
    NoTagInContext(d, t, hb, body, ForClose);
  }

  /** The locator on `$foreach( ... $endfor` where the stretch between holds
      neither tag. */
  lemma ScanForBlock(d: Dialect, t: string, p0: nat, e: nat)
    requires p0 + 9 <= e + 1 && e + 7 <= |t|
    requires t[p0..p0 + 9] == "$foreach(" && t[e..e + 7] == "$endfor"
    requires QuietFor(d, t, p0 + 8, e, ForOpen, ForClose)
    ensures MatchingEnd(d, t, p0, ForOpen, ForClose) == e
  {
    ForOpensAt(d, t, p0);
    ScanOpens(d, t, ForOpen, ForClose, p0, 0);
    ScanSkipsQuiet(d, t, ForOpen, ForClose, p0 + 8, e, 1);
    EndforClosesAt(d, t, e);
    ScanBalances(d, t, ForOpen, ForClose, e);
    assert MatchingEnd(d, t, p0, ForOpen, ForClose) == Scan(d, t, ForOpen, ForClose, p0, 0);
  }

  /** The `$endfor` that closes the block of a `LoopTemplate`. */
  lemma LoopTemplateEnd(d: Dialect, pre: string, head: string, body: string, post: string)
    requires IsHead(head) && NoTag(d, body, ForOpen) && NoTag(d, body, ForClose)
    ensures MatchingEnd(d, LoopTemplate(pre, head, body, post), |pre|, ForOpen, ForClose) == |pre| + |head| + |body|
  {
    var t := LoopTemplate(pre, head, body, post);
    var e := |pre| + |head| + |body|;
    LoopTemplateChars(pre, head, body, post);
    LoopHeadAt(d, pre, head, body, post);
    LoopBodyQuiet(d, pre, head, body, post);
    assert QuietFor(d, t, |pre| + 8, e, ForOpen, ForClose);
    ScanForBlock(d, t, |pre|, e);
  }

  /** The first directive of a `LoopTemplate` with a '$'-free prefix is its `$foreach`. */
  lemma LoopTemplateFirst(d: Dialect, pre: string, head: string, body: string, post: string)
    requires NoDollar(pre) && IsHead(head)
    ensures var t := LoopTemplate(pre, head, body, post);
      && IndexOf(t, ForOpen, d.IgnoreCase(), 0) == |pre|
      && (IndexOf(t, IfOpen, d.IgnoreCase(), 0) == -1 || |pre| < IndexOf(t, IfOpen, d.IgnoreCase(), 0))
  {
    var t := LoopTemplate(pre, head, body, post);
    var ci := d.IgnoreCase();
    var p0 := |pre|;
    LoopTemplateChars(pre, head, body, post);
    LoopHeadAt(d, pre, head, body, post);
    forall k | 0 <= k < p0 ensures t[k] != '$' {
      assert t[k] == pre[k];
    }
    assert MatchesAt(t, p0, ForOpen, ci) by {
      forall k | 0 <= k < 8 ensures CharEq(ci, t[p0 + k], ForOpen[k]) {
        assert t[p0 + k] == t[p0..p0 + 9][k];
      }
    }
    assert t[p0 + 1] == t[p0..p0 + 9][1];
    assert !CharEq(ci, t[p0 + 1], IfOpen[1]);
    FirstTagAt(d, t, p0, ForOpen, IfOpen);
  }

  /** The block at `start` from its end, its header and its body. */
  lemma ForBlockIs(d: Dialect, t: string, start: nat, end: nat, h: ForHeader, body: string)
    requires start <= end && end + |ForClose| <= |t|
    requires MatchingEnd(d, t, start, ForOpen, ForClose) == end
    requires FirstForHeader(d, t[start..end + |ForClose|], 0) == Some(h)
    requires start + h.len <= end && t[start + h.len..end] == body
    ensures ForBlockAt(d, t, start) == Some(ForBlock(h, body, end))
  {
    var r := ForBlockAt(d, t, start);
    assert r.Some?;
    assert r.value.end == end;
    assert Some(r.value.header) == Some(h);
    assert r.value.body == body;
  }

  /** The slices of a `LoopTemplate` around its block. */
  lemma LoopBlockText(pre: string, head: string, body: string, post: string)
    ensures var t := LoopTemplate(pre, head, body, post);
      var e := |pre| + |head| + |body|;
      && e + 7 <= |t|
      && t[|pre|..e + 7] == head + (body + "$endfor")
      && t[|pre| + |head|..e] == body
      && t[..|pre|] == pre && t[e + 7..] == post
  {
    var t := LoopTemplate(pre, head, body, post);
    var e := |pre| + |head| + |body|;
    assert t == pre + (head + (body + "$endfor")) + post;
    assert t[|pre|..e + 7] == head + (body + "$endfor");
    assert t[|pre|..e + 7][|head|..|head| + |body|] == body;
  }

  /** The header search finds `$foreach(var x in p)` at the start of a
      text given by the positions of its pieces. */
  lemma FirstVarHeaderAt(d: Dialect, s: string, x: string, p: string)
    requires IsWord(x) && IsListPath(p)
    requires LoopTextAt(s, 13, x, p) && forall k :: 0 <= k < 13 ==> s[k] == "$foreach(var "[k]
    ensures FirstForHeader(d, s, 0) == Some(ForHeader(0, x, p, |x| + |p| + 18))
  {
    ForHeaderWithVarAt(d, s, x, p);
  }

  /** Where the pieces of `$foreach(var x in p)` lie in a text that starts with it. */
  lemma VarHeaderText(s: string, x: string, p: string, rest: string)
    requires s == VarHeader(x, p) + rest
    ensures LoopTextAt(s, 13, x, p) && forall k :: 0 <= k < 13 ==> s[k] == "$foreach(var "[k]
  {
    LoopTextOfConcat("$foreach(var ", x, p, rest);
  }

  /** The block of a `LoopTemplate` with the header `$foreach(var x in p)`:
      loop variable `x`, collection path `p`, and the body as written. */
  lemma VarLoopBlock(d: Dialect, pre: string, x: string, p: string, body: string, post: string)
    requires IsWord(x) && IsListPath(p) && NoTag(d, body, ForOpen) && NoTag(d, body, ForClose)
    ensures var head := VarHeader(x, p);
      ForBlockAt(d, LoopTemplate(pre, head, body, post), |pre|)
        == Some(ForBlock(ForHeader(0, x, p, |head|), body, |pre| + |head| + |body|))
  {
    var head := VarHeader(x, p);
    var t := LoopTemplate(pre, head, body, post);
    var e := |pre| + |head| + |body|;
    HeadersAreHeads(x, p);
    LoopTemplateEnd(d, pre, head, body, post);
    LoopBlockText(pre, head, body, post);
    VarBlockAt(d, t, |pre|, x, p, body, |head|, e);
  }

  /** The block at `start` of a text given by the positions of its pieces:
      `$foreach(var x in p)` (`n` characters), then `body`, then at `e` the
      `$endfor` the locator finds. */
  lemma VarBlockAt(d: Dialect, t: string, start: nat, x: string, p: string, body: string, n: nat, e: nat)
    requires IsWord(x) && IsListPath(p) && n == |x| + |p| + 18 && e == start + n + |body|
    requires e + 7 <= |t| && MatchingEnd(d, t, start, ForOpen, ForClose) == e
    requires t[start + n..e] == body && t[start..e + 7] == VarHeader(x, p) + (body + "$endfor")
    ensures ForBlockAt(d, t, start) == Some(ForBlock(ForHeader(0, x, p, n), body, e))
  {
    var bt := t[start..e + 7];
    assert FirstForHeader(d, bt, 0) == Some(ForHeader(0, x, p, n)) by {
      VarHeaderText(bt, x, p, body + "$endfor");
      FirstVarHeaderAt(d, bt, x, p);
    }
    ForBlockFrom(d, t, start, e, ForHeader(0, x, p, n), body);
  }

  /** `ForBlockIs` with the end given by the header's length and the body's. */
  lemma ForBlockFrom(d: Dialect, t: string, start: nat, end: nat, h: ForHeader, body: string)
    requires end == start + h.len + |body| && end + 7 <= |t|
    requires MatchingEnd(d, t, start, ForOpen, ForClose) == end
    requires FirstForHeader(d, t[start..end + 7], 0) == Some(h)
    requires t[start + h.len..end] == body
    ensures ForBlockAt(d, t, start) == Some(ForBlock(h, body, end))
  {
    ForBlockIs(d, t, start, end, h, body);
  }

  /** What the `$foreach` step needs to know about a `LoopTemplate` with a `var` header. */
  lemma VarLoopShape(d: Dialect, pre: string, x: string, p: string, body: string, post: string, blk: ForBlock)
    requires NoDollar(pre) && IsWord(x) && IsListPath(p)
    requires NoTag(d, body, ForOpen) && NoTag(d, body, ForClose)
    requires blk == ForBlock(ForHeader(0, x, p, |VarHeader(x, p)|), body, |pre| + |VarHeader(x, p)| + |body|)
    ensures var t := LoopTemplate(pre, VarHeader(x, p), body, post);
      && |pre| <= |t| && t[..|pre|] == pre && t[blk.end + |ForClose|..] == post
      && IndexOf(t, ForOpen, d.IgnoreCase(), 0) == |pre|
      && (IndexOf(t, IfOpen, d.IgnoreCase(), 0) == -1 || |pre| < IndexOf(t, IfOpen, d.IgnoreCase(), 0))
      && ForBlockAt(d, t, |pre|) == Some(blk)
  {
    HeadersAreHeads(x, p);
    LoopTemplateFirst(d, pre, VarHeader(x, p), body, post);
    VarLoopBlock(d, pre, x, p, body, post);
    LoopBlockText(pre, VarHeader(x, p), body, post);
  }

  /** `ProcessLogic` hands the text to `ProcessForeach` when the first directive is a `$foreach`. */
  lemma LogicStartsWithForeach(d: Dialect, fuel: nat, t: string, model: Value, p: nat)
    requires p <= |t|
    requires IndexOf(t, ForOpen, d.IgnoreCase(), 0) == p
    requires IndexOf(t, IfOpen, d.IgnoreCase(), 0) == -1 || p < IndexOf(t, IfOpen, d.IgnoreCase(), 0)
    ensures ProcessLogic(d, fuel + 1, t, model) == ProcessForeach(d, fuel, t, model, p)
  {
  }

  /** The items a located block loops over. */
  function BlockItems(d: Dialect, model: Value, blk: ForBlock): seq<Value> {
    Items(d, PathValue(d, model, ListPath(d, blk.header.list)))
  }

  /** `ProcessForeach` on a located block is `SpliceForeach` of that block. */
  lemma ForeachAtBlock(d: Dialect, fuel: nat, t: string, model: Value, start: nat, blk: ForBlock)
    requires start <= |t| && ForBlockAt(d, t, start) == Some(blk)
    ensures start <= blk.end + |ForClose| <= |t|
    ensures ProcessForeach(d, fuel, t, model, start) == SpliceForeach(d, fuel, t, model, start, blk)
  {
  }

  /** `SpliceForeach` for the expansion `r` of the passes, on slices. */
  lemma SpliceForeachUnfold(d: Dialect, fuel: nat, t: string, model: Value, start: nat, blk: ForBlock, r: Option<string>)
    requires start <= blk.end + |ForClose| <= |t|
    requires ExpandItems(d, fuel, blk.body, model, blk.header.item, BlockItems(d, model, blk)) == r
    ensures r.None? ==> SpliceForeach(d, fuel, t, model, start, blk) == None
    ensures r.Some? ==>
      SpliceForeach(d, fuel, t, model, start, blk) == ProcessLogic(d, fuel, t[..start] + r.value + t[blk.end + |ForClose|..], model)
  {
    match r
    case None =>
    case Some(expanded) =>
      var s := t[..start] + expanded + t[blk.end + |ForClose|..];
      assert SpliceForeach(d, fuel, t, model, start, blk) == ProcessLogic(d, fuel, s, model);
  }

  /** The `$foreach` step on a text whose first directive opens the block
      `blk` right after `pre`, for the expansion `r` of its passes. */
  lemma ForeachStepAt(d: Dialect, fuel: nat, t: string, model: Value, pre: string, blk: ForBlock, post: string, r: Option<string>)
    requires |pre| <= |t| && t[..|pre|] == pre
    requires IndexOf(t, ForOpen, d.IgnoreCase(), 0) == |pre|
    requires IndexOf(t, IfOpen, d.IgnoreCase(), 0) == -1 || |pre| < IndexOf(t, IfOpen, d.IgnoreCase(), 0)
    requires ForBlockAt(d, t, |pre|) == Some(blk) && t[blk.end + |ForClose|..] == post
    requires ExpandItems(d, fuel, blk.body, model, blk.header.item, BlockItems(d, model, blk)) == r
    ensures r.None? ==> ProcessLogic(d, fuel + 1, t, model) == None
    ensures r.Some? ==> ProcessLogic(d, fuel + 1, t, model) == ProcessLogic(d, fuel, pre + r.value + post, model)
  {
    LogicStartsWithForeach(d, fuel, t, model, |pre|);
    ForeachAtBlock(d, fuel, t, model, |pre|, blk);
    SpliceForeachUnfold(d, fuel, t, model, |pre|, blk, r);
    if r.Some? {
      SplicedText(t, |pre|, blk.end + |ForClose|, pre, r.value, post);
      SameText(d, fuel, t[..|pre|] + r.value + t[blk.end + |ForClose|..], pre + r.value + post, model);
    }
  }

  /** The `$foreach(var x in p)` step for the expansion `r` of the passes. */
  lemma VarLoopStep(d: Dialect, fuel: nat, pre: string, x: string, p: string, body: string, post: string, model: Value, r: Option<string>)
    requires NoDollar(pre) && IsWord(x) && IsListPath(p)
    requires NoTag(d, body, ForOpen) && NoTag(d, body, ForClose)
    requires ExpandItems(d, fuel, body, model, x, Items(d, PathValue(d, model, ListPath(d, p)))) == r
    ensures r.None? ==> ProcessLogic(d, fuel + 1, LoopTemplate(pre, VarHeader(x, p), body, post), model) == None
    ensures r.Some? ==>
      ProcessLogic(d, fuel + 1, LoopTemplate(pre, VarHeader(x, p), body, post), model) == ProcessLogic(d, fuel, pre + r.value + post, model)
  {
    var t := LoopTemplate(pre, VarHeader(x, p), body, post);
    var blk := ForBlock(ForHeader(0, x, p, |VarHeader(x, p)|), body, |pre| + |VarHeader(x, p)| + |body|);
    VarLoopShape(d, pre, x, p, body, post, blk);
    ForeachStepAt(d, fuel, t, model, pre, blk, post, r);
  }

  /** A `$foreach(var x in p)` block that is the first directive is
      replaced by the expansion of its passes, one per item of the
      collection `p` names, and the text around it is expanded again. The
      body may hold other directives, but no `$foreach` or `$endfor`. */
  lemma ForeachStep(d: Dialect, fuel: nat, pre: string, x: string, p: string, body: string, post: string, model: Value)
    requires NoDollar(pre) && IsWord(x) && IsListPath(p)
    requires NoTag(d, body, ForOpen) && NoTag(d, body, ForClose)
    ensures ProcessLogic(d, fuel + 1, LoopTemplate(pre, VarHeader(x, p), body, post), model)
      == match ExpandItems(d, fuel, body, model, x, Items(d, PathValue(d, model, ListPath(d, p))))
         case None => None
         case Some(expanded) => ProcessLogic(d, fuel, pre + expanded + post, model)
  {
    VarLoopStep(d, fuel, pre, x, p, body, post, model, ExpandItems(d, fuel, body, model, x, Items(d, PathValue(d, model, ListPath(d, p)))));
  }

  /** The body's passes: its placeholders replaced in each item's loop
      scope, in the order of the items. */
  function Passes(d: Dialect, body: string, model: Value, name: string, items: seq<Value>): seq<string> {
    seq(|items|, i requires 0 <= i < |items| => ReplaceVariables(d, body, LoopScope(d, model, name, items[i])))
  }

  /** Concatenating one more piece appends it. */
  lemma {:induction false} ConcatSnoc(parts: seq<string>, last: string)
    ensures Concat(parts + [last]) == Concat(parts) + last
    decreases |parts|
  {
    if parts == [] {
      assert parts + [last] == [last];
      assert Concat([last]) == last + Concat([]);
    } else {
      assert (parts + [last])[1..] == parts[1..] + [last];
      ConcatSnoc(parts[1..], last);
    }
  }

  /** A body without `$if` and `$foreach` expands, item by item, to the
      concatenation of its passes. */
  lemma {:induction false} ExpandWithoutDirectives(d: Dialect, fuel: nat, body: string, model: Value, name: string, items: seq<Value>)
    requires NoTag(d, body, IfOpen) && NoTag(d, body, ForOpen)
    ensures ExpandItems(d, fuel, body, model, name, items) == Some(Concat(Passes(d, body, model, name, items)))
    decreases |items|
  {
    if items != [] {
      var i := |items| - 1;
      var init := items[..i];
      var scope := LoopScope(d, model, name, items[i]);
      ExpandWithoutDirectives(d, fuel, body, model, name, init);
      assert ProcessLogic(d, fuel, body, scope) == Some(body) by {
        NoTagIndexOf(d, body, IfOpen);
        NoTagIndexOf(d, body, ForOpen);
      }
      ExpandOneMore(d, fuel, body, model, name, items, i, Concat(Passes(d, body, model, name, init)), body);
      assert items[..i + 1] == items;
      PassesSnoc(d, body, model, name, items);
    }
  }

  /** The passes over one more item end with that item's pass. */
  lemma PassesSnoc(d: Dialect, body: string, model: Value, name: string, items: seq<Value>)
    requires items != []
    ensures var i := |items| - 1;
      Concat(Passes(d, body, model, name, items))
        == Concat(Passes(d, body, model, name, items[..i])) + ReplaceVariables(d, body, LoopScope(d, model, name, items[i]))
  {
    var i := |items| - 1;
    var pass := ReplaceVariables(d, body, LoopScope(d, model, name, items[i]));
    assert Passes(d, body, model, name, items) == Passes(d, body, model, name, items[..i]) + [pass];
    ConcatSnoc(Passes(d, body, model, name, items[..i]), pass);
  }

  /** A `$foreach(var x in p)` block whose body holds no directive is
      replaced by its passes, one per item of the collection in order, each
      with the body's placeholders read in that item's loop scope; the
      resulting text is expanded again. */
  lemma ForeachConcatenates(d: Dialect, fuel: nat, pre: string, x: string, p: string, body: string, post: string, model: Value)
    requires NoDollar(pre) && IsWord(x) && IsListPath(p)
    requires NoTag(d, body, IfOpen) && NoTag(d, body, ForOpen) && NoTag(d, body, ForClose)
    ensures ProcessLogic(d, fuel + 1, LoopTemplate(pre, VarHeader(x, p), body, post), model)
      == ProcessLogic(d, fuel, pre + Concat(Passes(d, body, model, x, Items(d, PathValue(d, model, ListPath(d, p))))) + post, model)
  {
    var items := Items(d, PathValue(d, model, ListPath(d, p)));
    ExpandWithoutDirectives(d, fuel, body, model, x, items);
    VarLoopStep(d, fuel, pre, x, p, body, post, model, Some(Concat(Passes(d, body, model, x, items))));
  }

  /** A collection path that names nothing, or names a value that is not a
      collection (in Mini, a string is not one either), gives no pass: the
      block is removed and the text around it is expanded again. */
  lemma ForeachOverNothing(d: Dialect, fuel: nat, pre: string, x: string, p: string, body: string, post: string, model: Value)
    requires NoDollar(pre) && IsWord(x) && IsListPath(p)
    requires NoTag(d, body, ForOpen) && NoTag(d, body, ForClose)
    requires var v := PathValue(d, model, ListPath(d, p));
      v.Null? || v.Bool? || v.Int? || v.Dec? || v.Obj? || (d == Mini && v.Str?)
    ensures ProcessLogic(d, fuel + 1, LoopTemplate(pre, VarHeader(x, p), body, post), model)
      == ProcessLogic(d, fuel, pre + post, model)
  {
    var items := Items(d, PathValue(d, model, ListPath(d, p)));
    assert items == [];
    ForeachOverNoItems(d, fuel, pre, x, p, body, post, model);
  }

  /** A loop over no items removes its block. */
  lemma ForeachOverNoItems(d: Dialect, fuel: nat, pre: string, x: string, p: string, body: string, post: string, model: Value)
    requires NoDollar(pre) && IsWord(x) && IsListPath(p)
    requires NoTag(d, body, ForOpen) && NoTag(d, body, ForClose)
    requires Items(d, PathValue(d, model, ListPath(d, p))) == []
    ensures ProcessLogic(d, fuel + 1, LoopTemplate(pre, VarHeader(x, p), body, post), model)
      == ProcessLogic(d, fuel, pre + post, model)
  {
    ExpandNothing(d, fuel, body, model, x, Items(d, PathValue(d, model, ListPath(d, p))));
    VarLoopStep(d, fuel, pre, x, p, body, post, model, Some([]));
    EmptyMiddle(d, fuel, pre, post, model);
  }

  /** No items expand to the empty text. */
  lemma ExpandNothing(d: Dialect, fuel: nat, body: string, model: Value, name: string, items: seq<Value>)
    requires items == []
    ensures ExpandItems(d, fuel, body, model, name, items) == Some([])
  {
  }

  /** An empty expansion leaves the text around it. */
  lemma EmptyMiddle(d: Dialect, fuel: nat, pre: string, post: string, model: Value)
    ensures ProcessLogic(d, fuel, pre + [] + post, model) == ProcessLogic(d, fuel, pre + post, model)
  {
    assert pre + [] + post == pre + post;
  }

  /** Concatenated '$'-free pieces hold no '$'. */
  lemma {:induction false} ConcatPlain(parts: seq<string>)
    requires forall i :: 0 <= i < |parts| ==> NoDollar(parts[i])
    ensures NoDollar(Concat(parts))
    decreases |parts|
  {
    if parts != [] {
      ConcatPlain(parts[1..]);
      NoDollarAppend(parts[0], Concat(parts[1..]));
    }
  }

  /** A loop over a '$'-free body, with '$'-free text around it, renders the
      body once per item of the collection. */
  lemma ForeachRepeatsPlainBody(d: Dialect, fuel: nat, pre: string, x: string, p: string, body: string, post: string, model: Value)
    requires NoDollar(pre) && NoDollar(body) && NoDollar(post) && IsWord(x) && IsListPath(p)
    ensures var n := |Items(d, PathValue(d, model, ListPath(d, p)))|;
      ProcessLogic(d, fuel + 1, LoopTemplate(pre, VarHeader(x, p), body, post), model)
        == Some(pre + Concat(seq(n, _ => body)) + post)
  {
    var items := Items(d, PathValue(d, model, ListPath(d, p)));
    NoTagOfPlain(d, body, IfOpen);
    NoTagOfPlain(d, body, ForOpen);
    NoTagOfPlain(d, body, ForClose);
    ForeachConcatenates(d, fuel, pre, x, p, body, post, model);
    var copies := seq(|items|, _ => body);
    PlainPasses(d, body, model, x, items);
    assert NoDollar(pre + Concat(copies) + post) by {
      ConcatPlain(copies);
      NoDollarAppend(pre, Concat(copies));
      NoDollarAppend(pre + Concat(copies), post);
    }
    PlainIsProcessed(d, fuel, pre + Concat(copies) + post, model);
  }

  /** Each pass of a '$'-free body is the body itself. */
  lemma PlainPasses(d: Dialect, body: string, model: Value, x: string, items: seq<Value>)
    requires NoDollar(body)
    ensures Passes(d, body, model, x, items) == seq(|items|, _ => body)
  {
    NoTagWithoutDollar(body, "${", false);
    forall i | 0 <= i < |items| ensures ReplaceVariables(d, body, LoopScope(d, model, x, items[i])) == body {
      ReplaceVariablesPlain(d, body, LoopScope(d, model, x, items[i]));
    }
  }

  /** No `$foreach` starts after the start of a header text followed by a
      body holding none and by `$endfor`. */
  lemma NoLaterForOpen(d: Dialect, head: string, body: string)
    requires IsHead(head) && NoTag(d, body, ForOpen)
    ensures forall q :: 1 <= q ==> !MatchesAt(head + (body + "$endfor"), q, ForOpen, d.IgnoreCase())
  {
    var s := head + (body + "$endfor");
    var ci := d.IgnoreCase();
    var e := |head| + |body|;
    LoopTemplateChars("", head, body, "");
    assert LoopTemplate("", head, body, "") == s;
    forall k | 1 <= k < |head| ensures s[k] != '$' {
      assert s[0 + k] == head[k];
    }
    PlainSpanHasNoTag(d, s, 1, |head|, ForOpen);
    assert s[e] == s[e..e + 7][0];
    TagsAreDollarFirst();
    NoTagInContext(d, s, |head|, body, ForOpen);
    assert !MatchesAt(s, e, ForOpen, ci) by {
      assert s[e + 1] == s[e..e + 7][1];
      assert !CharEq(ci, s[e + 1], ForOpen[1]);
    }
    forall q | e < q < e + 7 ensures s[q] != '$' {
      assert s[q] == s[e..e + 7][q - e];
    }
    PlainSpanHasNoTag(d, s, e + 1, e + 7, ForOpen);
  }

  /** Past a position where no `$foreach` starts any more, the header search finds nothing. */
  lemma {:induction false} NoHeaderFrom(d: Dialect, s: string, from: nat)
    requires forall q :: from <= q ==> !MatchesAt(s, q, ForOpen, d.IgnoreCase())
    ensures FirstForHeader(d, s, from) == None
    decreases |s| + 1 - from
  {
    if from <= |s| {
      NoHeaderFrom(d, s, from + 1);
    }
  }

  /** Hw4 requires `var` in the header: a `$foreach(x in p)` block that is
      the first directive is not expanded, and the whole template comes back
      as it is, the directives after it included. */
  lemma BareHeaderLeavesText(fuel: nat, pre: string, x: string, p: string, body: string, post: string, model: Value)
    requires NoDollar(pre) && IsWord(x) && !EqualsCi(true, x, "var") && IsListPath(p)
    requires NoTag(Hw4, body, ForOpen) && NoTag(Hw4, body, ForClose)
    ensures var t := LoopTemplate(pre, BareHeader(x, p), body, post);
      ProcessLogic(Hw4, fuel + 1, t, model) == Some(t)
  {
    ForHeaderWithoutVar(x, p, body + "$endfor");
    RefusedHeaderLeavesText(fuel, pre, x, p, body, post, model);
  }

  /** Hw4's `$foreach(var in p)`, with no loop variable after `var`, is
      refused too: the whole template comes back as it is. */
  lemma VarWithoutItemLeavesText(fuel: nat, pre: string, p: string, body: string, post: string, model: Value)
    requires NoDollar(pre) && IsListPath(p) && !(|p| >= 2 && p[0] == 'i' && p[1] == 'n')
    requires NoTag(Hw4, body, ForOpen) && NoTag(Hw4, body, ForClose)
    ensures var t := LoopTemplate(pre, BareHeader("var", p), body, post);
      ProcessLogic(Hw4, fuel + 1, t, model) == Some(t)
  {
    var x := "var";
    assert IsWord(x) by {
      assert forall k :: 0 <= k < |x| ==> IsWordChar(x[k]);
    }
    VarWithoutItem(x, p, body + "$endfor");
    RefusedHeaderLeavesText(fuel, pre, x, p, body, post, model);
  }

  /** A `$foreach(x in p)` block, first among the directives, whose header
      Hw4's expression refuses leaves the whole template as it is. */
  lemma RefusedHeaderLeavesText(fuel: nat, pre: string, x: string, p: string, body: string, post: string, model: Value)
    requires NoDollar(pre) && IsWord(x) && IsListPath(p)
    requires NoTag(Hw4, body, ForOpen) && NoTag(Hw4, body, ForClose)
    requires ForHeaderAt(Hw4, BareHeader(x, p) + (body + "$endfor"), 0) == None
    ensures var t := LoopTemplate(pre, BareHeader(x, p), body, post);
      ProcessLogic(Hw4, fuel + 1, t, model) == Some(t)
  {
    var head := BareHeader(x, p);
    var t := LoopTemplate(pre, head, body, post);
    var e := |pre| + |head| + |body|;
    HeadersAreHeads(x, p);
    LoopTemplateFirst(Hw4, pre, head, body, post);
    LoopTemplateEnd(Hw4, pre, head, body, post);
    LoopTemplateChars(pre, head, body, post);
    var bt := head + (body + "$endfor");
    NoLaterForOpen(Hw4, head, body);
    NoHeaderFrom(Hw4, bt, 1);
    assert FirstForHeader(Hw4, t[|pre|..e + 7], 0) == None;
    assert ForBlockAt(Hw4, t, |pre|) == None;
    LogicStartsWithForeach(Hw4, fuel, t, model, |pre|);
  }

  /** The first directive, a `$foreach` without a located block (no
      balancing `$endfor`, or a header the expression refuses), leaves the
      whole text as it is, the directives after it included. */
  lemma MalformedForeachLeavesText(d: Dialect, fuel: nat, t: string, model: Value, p: nat)
    requires p <= |t|
    requires IndexOf(t, ForOpen, d.IgnoreCase(), 0) == p
    requires IndexOf(t, IfOpen, d.IgnoreCase(), 0) == -1 || p < IndexOf(t, IfOpen, d.IgnoreCase(), 0)
    requires ForBlockAt(d, t, p).None?
    ensures ProcessLogic(d, fuel + 1, t, model) == Some(t)
  {
    LogicStartsWithForeach(d, fuel, t, model, p);
  }
}
