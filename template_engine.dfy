/** `HtmlTemplateRenderer.RenderFromString` of both versions: blocks are
    expanded first (`ProcessLogic`), then `${...}` placeholders are replaced.

    The source recurses without bound and can run forever: text produced by
    a loop is scanned again, so a value that itself contains a directive is
    expanded in turn. The model bounds the recursion depth by `fuel`; `None`
    means the bound was reached before the expansion finished. */
module TemplateEngine {
  import opened Text
  import opened TemplateSyntax
  import opened TemplateValues

  /** `ReplaceVariables`: `Regex.Replace` with the placeholder expression,
      from position `p` on. Each match is replaced by the displayed value of
      its trimmed path; other characters are copied. */
  function ReplaceFrom(d: Dialect, s: string, model: Value, p: nat): string
    decreases |s| - p
  {
    if p >= |s| then []
    else
      match PlaceholderAt(d, s, p)
      case Some(e) => Display(PathValue(d, model, Trim(s[p + 2..e]))) + ReplaceFrom(d, s, model, e + 1)
      case None => [s[p]] + ReplaceFrom(d, s, model, p + 1)
  }

  function ReplaceVariables(d: Dialect, s: string, model: Value): string {
    ReplaceFrom(d, s, model, 0)
  }

  /** The `$else` split of an `$if` body: the text before the first `$else`
      and the text after it, or the whole body and "". */
  function SplitElse(d: Dialect, body: string): (r: (string, string))
    ensures IndexOf(body, ElseTag, d.IgnoreCase(), 0) == -1 ==> r == (body, "")
    ensures IndexOf(body, ElseTag, d.IgnoreCase(), 0) != -1 ==>
      && |r.0| + |ElseTag| <= |body|
      && MatchesAt(body, |r.0|, ElseTag, d.IgnoreCase())
      && (forall j :: 0 <= j < |r.0| ==> !MatchesAt(body, j, ElseTag, d.IgnoreCase()))
      && body == r.0 + body[|r.0|..|r.0| + |ElseTag|] + r.1
  {
    var k := IndexOf(body, ElseTag, d.IgnoreCase(), 0);
    if k == -1 then (body, "")
    else
      assert body == body[..k] + body[k..k + |ElseTag|] + body[k + |ElseTag|..];
      (body[..k], body[k + |ElseTag|..])
  }

  /** `ProcessLogic`: expand the first directive (`$if` or `$foreach`,
      whichever comes first), or return the text when there is none. */
  function ProcessLogic(d: Dialect, fuel: nat, t: string, model: Value): (r: Option<string>)
    ensures IndexOf(t, IfOpen, d.IgnoreCase(), 0) == -1 && IndexOf(t, ForOpen, d.IgnoreCase(), 0) == -1 ==> r == Some(t)
    decreases fuel, 0, 0
  {
    var i := IndexOf(t, IfOpen, d.IgnoreCase(), 0);
    var f := IndexOf(t, ForOpen, d.IgnoreCase(), 0);
    if i == -1 && f == -1 then Some(t)
    else if fuel == 0 then None
    else if i != -1 && (f == -1 || i < f) then ProcessIf(d, fuel - 1, t, model, i)
    else ProcessForeach(d, fuel - 1, t, model, f)
  }

  /** The branch of an `$if` block its trimmed condition selects: the text
      before `$else` when the condition holds, the text after it otherwise. */
  function ChosenBranch(d: Dialect, model: Value, b: IfBlock): string {
    var branches := SplitElse(d, b.body);
    if IsTrue(d, PathValue(d, model, Trim(b.header.cond))) then branches.0 else branches.1
  }

  /** `ProcessIfBlock`: locate the block, keep the branch the condition
      selects, expand it, splice it in and go on. A missing `$endif` or an
      unparsable header leaves the text as it is. */
  function ProcessIf(d: Dialect, fuel: nat, t: string, model: Value, start: nat): Option<string>
    requires start <= |t|
    decreases fuel, 1, 0
  {
    match IfBlockAt(d, t, start)
    case None => Some(t)
    case Some(b) => SpliceIf(d, fuel, t, model, start, b)
  }

  /** The located block `b` replaced by its expanded chosen branch, and the
      whole text expanded again. */
  function SpliceIf(d: Dialect, fuel: nat, t: string, model: Value, start: nat, b: IfBlock): Option<string>
    requires start <= b.end + |IfClose| <= |t|
    decreases fuel, 0, 1
  {
    match ProcessLogic(d, fuel, ChosenBranch(d, model, b), model)
    case None => None
    case Some(inner) => ProcessLogic(d, fuel, t[..start] + inner + t[b.end + |IfClose|..], model)
  }

  /** `ProcessForeachBlock`: locate the block, expand the body once per item
      of the collection, splice the result in and go on. */
  function ProcessForeach(d: Dialect, fuel: nat, t: string, model: Value, start: nat): Option<string>
    requires start <= |t|
    decreases fuel, 2, 0
  {
    match ForBlockAt(d, t, start)
    case None => Some(t)
    case Some(b) => SpliceForeach(d, fuel, t, model, start, b)
  }

  /** The located block `b` replaced by its passes, one per item of the
      collection its header names, and the whole text expanded again. */
  function SpliceForeach(d: Dialect, fuel: nat, t: string, model: Value, start: nat, b: ForBlock): Option<string>
    requires start <= b.end + |ForClose| <= |t|
    decreases fuel, 1, 0
  {
    var items := Items(d, PathValue(d, model, ListPath(d, b.header.list)));
    match ExpandItems(d, fuel, b.body, model, b.header.item, items)
    case None => None
    case Some(expanded) => ProcessLogic(d, fuel, t[..start] + expanded + t[b.end + |ForClose|..], model)
  }

  /** The collection path of a `$foreach` header as the loop reads it: Mini
      trims it, Hw4 does not. */
  function ListPath(d: Dialect, list: string): string {
    if d == Mini then Trim(list) else list
  }

  /** One loop pass per item: expand the body's blocks and placeholders in
      the item's loop scope, and concatenate the results in order. */
  function ExpandItems(d: Dialect, fuel: nat, body: string, model: Value, name: string, items: seq<Value>): Option<string>
    decreases fuel, 0, |items|
  {
    if items == [] then Some([])
    else
      var prefix :- ExpandItems(d, fuel, body, model, name, items[..|items| - 1]);
      var scope := LoopScope(d, model, name, items[|items| - 1]);
      var processed :- ProcessLogic(d, fuel, body, scope);
      Some(prefix + ReplaceVariables(d, processed, scope))
  }

  /** The `StringBuilder` loop of `ProcessForeachBlock`. */
  method AppendItems(d: Dialect, fuel: nat, body: string, model: Value, name: string, items: seq<Value>)
    returns (r: Option<string>)
    ensures r == ExpandItems(d, fuel, body, model, name, items)
  {
    var sb := "";
    var i := 0;
    while i < |items|
      invariant 0 <= i <= |items|
      invariant ExpandItems(d, fuel, body, model, name, items[..i]) == Some(sb)
    {
      var scope := LoopScope(d, model, name, items[i]);
      var processed := ProcessLogic(d, fuel, body, scope);
      ExpandStep(d, fuel, body, model, name, items, i, sb);
      if processed.None? {
        return None;
      }
      sb := sb + ReplaceVariables(d, processed.value, scope);
      i := i + 1;
    }
    assert items[..i] == items;
    return Some(sb);
  }

  /** Expanding one more item appends that item's pass. */
  lemma ExpandOneMore(d: Dialect, fuel: nat, body: string, model: Value, name: string, items: seq<Value>, i: nat,
                      prefix: string, processed: string)
    requires i < |items|
    requires ExpandItems(d, fuel, body, model, name, items[..i]) == Some(prefix)
    requires ProcessLogic(d, fuel, body, LoopScope(d, model, name, items[i])) == Some(processed)
    ensures ExpandItems(d, fuel, body, model, name, items[..i + 1])
      == Some(prefix + ReplaceVariables(d, processed, LoopScope(d, model, name, items[i])))
  {
    assert items[..i + 1][..i] == items[..i];
  }

  /** A pass that runs out of fuel stops the expansion. */
  lemma ExpandPassFails(d: Dialect, fuel: nat, body: string, model: Value, name: string, items: seq<Value>, i: nat)
    requires i < |items|
    requires ProcessLogic(d, fuel, body, LoopScope(d, model, name, items[i])) == None
    ensures ExpandItems(d, fuel, body, model, name, items[..i + 1]) == None
  {
    assert items[..i + 1][..i] == items[..i];
  }

  /** One more pass of the loop: it either stops the whole expansion or
      appends that item's text. */
  lemma ExpandStep(d: Dialect, fuel: nat, body: string, model: Value, name: string, items: seq<Value>, i: nat, prefix: string)
    requires i < |items|
    requires ExpandItems(d, fuel, body, model, name, items[..i]) == Some(prefix)
    ensures var scope := LoopScope(d, model, name, items[i]);
      var processed := ProcessLogic(d, fuel, body, scope);
      && (processed.None? ==> ExpandItems(d, fuel, body, model, name, items) == None)
      && (processed.Some? ==>
            ExpandItems(d, fuel, body, model, name, items[..i + 1]) == Some(prefix + ReplaceVariables(d, processed.value, scope)))
  {
    var scope := LoopScope(d, model, name, items[i]);
    var processed := ProcessLogic(d, fuel, body, scope);
    if processed.None? {
      ExpandPassFails(d, fuel, body, model, name, items, i);
      ExpandStopsAtNone(d, fuel, body, model, name, items, i + 1);
    } else {
      ExpandOneMore(d, fuel, body, model, name, items, i, prefix, processed.value);
    }
  }

  /** Once one pass runs out of fuel, so does every longer run. */
  lemma {:induction false} ExpandStopsAtNone(d: Dialect, fuel: nat, body: string, model: Value, name: string, items: seq<Value>, n: nat)
    requires 1 <= n <= |items|
    requires ExpandItems(d, fuel, body, model, name, items[..n]) == None
    ensures ExpandItems(d, fuel, body, model, name, items) == None
    decreases |items| - n
  {
    if n < |items| {
      assert items[..n + 1][..n] == items[..n];
      ExpandStopsAtNone(d, fuel, body, model, name, items, n + 1);
    } else {
      assert items[..n] == items;
    }
  }

  /** The loop scope as the source builds it: copy the parent dictionary's
      entries one by one, then bind the loop variable. */
  method BuildLoopScope(d: Dialect, model: Value, name: string, item: Value) returns (scope: Value)
    ensures scope == LoopScope(d, model, name, item)
  {
    var entries: seq<Prop> := [];
    if model.Dict? {
      var i := 0;
      while i < |model.entries|
        invariant 0 <= i <= |model.entries|
        invariant CopyInto(entries, model.entries[i..], d.IgnoreCase()) == CopyInto([], model.entries, d.IgnoreCase())
      {
        assert model.entries[i..][1..] == model.entries[i + 1..];
        entries := Put(entries, model.entries[i].name, model.entries[i].value, d.IgnoreCase());
        i := i + 1;
      }
    }
    entries := Put(entries, name, item, d.IgnoreCase());
    return Dict(entries);
  }

  /** Mini's last step: remove the literal two-character escapes `\r\n`
      and `\n` left in the text. */
  function Cleanup(s: string): string {
    Replace(Replace(s, "\\r\\n", ""), "\\n", "")
  }

  /** `RenderFromString`: an empty template gives ""; otherwise blocks, then
      placeholders, then (Mini) the cleanup. A null template is not
      distinguished from "". */
  function RenderFromString(d: Dialect, fuel: nat, template: string, model: Value): Option<string> {
    if template == [] then Some([])
    else
      var processed :- ProcessLogic(d, fuel, template, model);
      var result := ReplaceVariables(d, processed, model);
      Some(if d == Mini then Cleanup(result) else result)
  }
}
