/** The data a template is rendered against, as the renderer sees it through
    .NET reflection: `GetValue` walks a dotted path, `EvaluateCondition`
    decides an `$if`, a `$foreach` enumerates a collection and builds the
    loop's own dictionary scope. */
module TemplateValues {
  import opened Text
  import opened TemplateSyntax

  /** A model object. `text` is what its `ToString()` returns; `props` are its
      public instance properties in declaration order.
      - `Obj`: any other object (a record, a boxed char or long, ...);
      - `Seq`: an enumerable object that is not a dictionary (a list, an array);
      - `Dict`: a `Dictionary<string, object>`, entries in insertion order;
      - `Dec`: a `decimal`, with its value and its text. */
  datatype Value =
    | Null
    | Bool(b: bool)
    | Int(i: int)
    | Dec(x: real, text: string)
    | Str(s: string)
    | Obj(text: string, props: seq<Prop>)
    | Seq(text: string, props: seq<Prop>, items: seq<Value>)
    | Dict(entries: seq<Prop>)

  /** A named value: a property of an object or an entry of a dictionary. */
  datatype Prop = Prop(name: string, value: Value)

  const DictText: string := "System.Collections.Generic.Dictionary`2[System.String,System.Object]"
  const KeysText: string := "System.Collections.Generic.Dictionary`2+KeyCollection[System.String,System.Object]"
  const ValuesText: string := "System.Collections.Generic.Dictionary`2+ValueCollection[System.String,System.Object]"

  /** `val?.ToString() ?? ""`. */
  function Display(v: Value): string {
    match v
    case Null => ""
    case Bool(b) => if b then "True" else "False"
    case Int(i) => IntToString(i)
    case Dec(_, text) => text
    case Str(s) => s
    case Obj(text, _) => text
    case Seq(text, _, _) => text
    case Dict(_) => DictText
  }

  /** The keys of a dictionary's entries, as strings. */
  function KeysOf(es: seq<Prop>): (r: seq<Value>)
    ensures |r| == |es| && forall i :: 0 <= i < |es| ==> r[i] == Str(es[i].name)
  {
    if es == [] then [] else [Str(es[0].name)] + KeysOf(es[1..])
  }

  /** The values of a dictionary's entries. */
  function ValuesOf(es: seq<Prop>): (r: seq<Value>)
    ensures |r| == |es| && forall i :: 0 <= i < |es| ==> r[i] == es[i].value
  {
    if es == [] then [] else [es[0].value] + ValuesOf(es[1..])
  }

  /** The public instance properties reflection finds on `v`. A string has
      `Length`; a dictionary has `Count`, `Keys` and `Values`. */
  function Properties(v: Value): seq<Prop> {
    match v
    case Str(s) => [Prop("Length", Int(|s|))]
    case Obj(_, props) => props
    case Seq(_, props, _) => props
    case Dict(es) =>
      [Prop("Count", Int(|es|)),
       Prop("Keys", Seq(KeysText, [Prop("Count", Int(|es|))], KeysOf(es))),
       Prop("Values", Seq(ValuesText, [Prop("Count", Int(|es|))], ValuesOf(es)))]
    case _ => []
  }

  /** The index of the first entry whose name equals `name` (ordinal, or
      ignoring case when `ci`), or -1. */
  function IndexOfKey(ps: seq<Prop>, name: string, ci: bool): (r: int)
    ensures -1 <= r < |ps|
    ensures r >= 0 ==> EqualsCi(ci, ps[r].name, name)
    ensures forall j :: 0 <= j < |ps| && (r == -1 || j < r) ==> !EqualsCi(ci, ps[j].name, name)
  {
    if ps == [] then -1
    else if EqualsCi(ci, ps[0].name, name) then 0
    else
      var k := IndexOfKey(ps[1..], name, ci);
      if k == -1 then -1 else k + 1
  }

  /** The first entry matching is the one `IndexOfKey` finds. */
  lemma IndexOfKeyAt(ps: seq<Prop>, name: string, ci: bool, k: int)
    requires 0 <= k < |ps| && EqualsCi(ci, ps[k].name, name)
    requires forall j :: 0 <= j < k ==> !EqualsCi(ci, ps[j].name, name)
    ensures IndexOfKey(ps, name, ci) == k
  {
  }

  /** The value of the first entry named `name`. */
  function FindProp(ps: seq<Prop>, name: string, ci: bool): Option<Value> {
    var k := IndexOfKey(ps, name, ci);
    if k == -1 then None else Some(ps[k].value)
  }

  /** The dictionary lookup `GetValue` starts with. Mini: `TryGetValue`, then
      the first key equal ignoring case. Hw4: `ContainsKey` and the indexer. */
  function DictLookup(d: Dialect, es: seq<Prop>, key: string): Option<Value> {
    var exact := FindProp(es, key, false);
    if exact.Some? || d == Hw4 then exact else FindProp(es, key, true)
  }

  /** The property walk: each name is looked up on the current object
      (Mini ignoring case); a null object or a missing property gives null. */
  function Walk(d: Dialect, v: Value, names: seq<string>): Value
    decreases |names|
  {
    if names == [] then v
    else if v.Null? then Null
    else
      match FindProp(Properties(v), names[0], d.IgnoreCase())
      case None => Null
      case Some(w) => Walk(d, w, names[1..])
  }

  /** What `GetValue(model, path)` returns. The first segment is looked up in
      a dictionary model; when that fails, Mini gives null and Hw4 walks the
      whole path from the dictionary object itself. Mini trims the path. */
  function PathValue(d: Dialect, model: Value, path: string): Value {
    if model.Null? || IsBlank(path) then Null
    else
      var parts := Split(if d == Mini then Trim(path) else path, '.');
      if model.Dict? then
        match DictLookup(d, model.entries, parts[0])
        case Some(v) => if |parts| == 1 then v else Walk(d, v, parts[1..])
        case None => if d == Mini then Null else Walk(d, model, parts)
      else Walk(d, model, parts)
  }

  /** A word is one path segment: not blank, its own trim, no '.'. */
  lemma WordSegment(key: string)
    requires IsWord(key)
    ensures !IsBlank(key) && Trim(key) == key && Split(key, '.') == [key]
  {
    assert !IsSpace(key[0]);
    TrimClean(key);
    assert IndexOfChar(key, '.', 0) == -1;
  }

  /** What `GetValue` promises. A null model or a blank path gives null.
      On a dictionary model a one-segment path finds the entry with exactly
      that key; failing that, Mini takes the first key equal ignoring case
      and otherwise gives null, while Hw4 reads the property of that name
      of the dictionary object itself. On any other object the segment is
      the property of that name (Mini ignoring case), or null. */
  lemma PathValueLaws(d: Dialect, model: Value, path: string, es: seq<Prop>, key: string)
    requires IsWord(key)
    ensures model.Null? || IsBlank(path) ==> PathValue(d, model, path) == Null
    ensures FindProp(es, key, false).Some? ==> PathValue(d, Dict(es), key) == FindProp(es, key, false).value
    ensures FindProp(es, key, false).None? && FindProp(es, key, true).Some? ==>
      PathValue(Mini, Dict(es), key) == FindProp(es, key, true).value
    ensures FindProp(es, key, true).None? ==> PathValue(Mini, Dict(es), key) == Null
    ensures FindProp(es, key, false).None? ==>
      PathValue(Hw4, Dict(es), key) == match FindProp(Properties(Dict(es)), key, false) case Some(v) => v case None => Null
    ensures !model.Null? && !model.Dict? ==>
      PathValue(d, model, key) == match FindProp(Properties(model), key, d.IgnoreCase()) case Some(v) => v case None => Null
  {
    WordSegment(key);
    WalkOne(Hw4, Dict(es), key);
    if !model.Null? {
      WalkOne(d, model, key);
    }
  }

  /** A walk of one segment reads one property. */
  lemma WalkOne(d: Dialect, v: Value, key: string)
    requires !v.Null?
    ensures Walk(d, v, [key]) == match FindProp(Properties(v), key, d.IgnoreCase()) case Some(w) => w case None => Null
  {
    assert [key][1..] == [];
  }

  /** The two versions part on a missing key: Hw4 falls through to the
      dictionary's own `Count`, Mini gives null. */
  lemma MissingKeyFallsThrough(es: seq<Prop>)
    requires FindProp(es, "Count", true).None?
    ensures PathValue(Hw4, Dict(es), "Count") == Int(|es|)
    ensures PathValue(Mini, Dict(es), "Count") == Null
  {
    var key := "Count";
    assert IsWord(key);
    PathValueLaws(Hw4, Dict(es), key, es, key);
    PathValueLaws(Mini, Dict(es), key, es, key);
    assert FindProp(es, key, false).None? by {
      if FindProp(es, key, false).Some? {
        var k := IndexOfKey(es, key, false);
        assert EqualsCi(true, es[k].name, key);
        IndexOfKeyAt(es, key, true, IndexOfKey(es, key, true));
      }
    }
    assert EqualsCi(false, Properties(Dict(es))[0].name, key);
    IndexOfKeyAt(Properties(Dict(es)), key, false, 0);
  }

  /** The `foreach` over a dictionary's entries that Mini falls back on:
      the first key equal ignoring case. */
  method FindKeyIgnoringCase(es: seq<Prop>, key: string) returns (found: Option<Value>)
    ensures found == FindProp(es, key, true)
  {
    var i := 0;
    while i < |es|
      invariant 0 <= i <= |es|
      invariant forall j :: 0 <= j < i ==> !EqualsCi(true, es[j].name, key)
    {
      if EqualsCi(true, es[i].name, key) {
        IndexOfKeyAt(es, key, true, i);
        return Some(es[i].value);
      }
      i := i + 1;
    }
    return None;
  }

  /** The `foreach (var propName in parts)` loop of `GetValue`. */
  method WalkPath(d: Dialect, v: Value, names: seq<string>) returns (r: Value)
    ensures r == Walk(d, v, names)
  {
    var current := v;
    var i := 0;
    while i < |names|
      invariant 0 <= i <= |names|
      invariant Walk(d, current, names[i..]) == Walk(d, v, names)
    {
      if current.Null? {
        return Null;
      }
      var prop := FindProp(Properties(current), names[i], d.IgnoreCase());
      if prop.None? {
        return Null;
      }
      assert names[i..][1..] == names[i + 1..];
      current := prop.value;
      i := i + 1;
    }
    return current;
  }

  /** `GetValue` as the source writes it, with its two loops. */
  method GetValue(d: Dialect, model: Value, path: string) returns (r: Value)
    ensures r == PathValue(d, model, path)
  {
    if model.Null? || IsBlank(path) {
      return Null;
    }
    var parts := Split(if d == Mini then Trim(path) else path, '.');
    if model.Dict? {
      var found := FindProp(model.entries, parts[0], false);
      if found.None? && d == Mini {
        found := FindKeyIgnoringCase(model.entries, parts[0]);
      }
      assert found == DictLookup(d, model.entries, parts[0]);
      if found.Some? {
        if |parts| == 1 {
          return found.value;
        }
        r := WalkPath(d, found.value, parts[1..]);
        return;
      } else if d == Mini {
        return Null;
      }
    }
    r := WalkPath(d, model, parts);
  }

  /** `EvaluateCondition` (Mini) and the inline test of Hw4. Mini: null is
      false, a bool is itself, a string must not be blank, an int or decimal
      must be non-zero, a collection must be non-empty, anything else is
      true. Hw4: a bool is itself, null is false, anything else is true. */
  predicate IsTrue(d: Dialect, v: Value) {
    match v
    case Null => false
    case Bool(b) => b
    case Str(s) => d == Hw4 || !IsBlank(s)
    case Int(i) => d == Hw4 || i != 0
    case Dec(x, _) => d == Hw4 || x != 0.0
    case Seq(_, _, items) => d == Hw4 || |items| > 0
    case Dict(es) => d == Hw4 || |es| > 0
    case Obj(_, _) => true
  }

  /** Mini is the stricter of the two: what it takes as true, Hw4 does too. */
  lemma MiniTrueIsHw4True(v: Value)
    ensures IsTrue(Mini, v) ==> IsTrue(Hw4, v)
    ensures v.Null? || v.Bool? ==> (IsTrue(Mini, v) <==> IsTrue(Hw4, v))
  {
  }

  /** The `KeyValuePair<string, object>` a dictionary yields when enumerated. */
  function Pair(e: Prop): Value {
    Obj("[" + e.name + ", " + Display(e.value) + "]", [Prop("Key", Str(e.name)), Prop("Value", e.value)])
  }

  /** A string's characters as the boxed `char`s its enumerator yields. */
  function Chars(s: string): (r: seq<Value>)
    ensures |r| == |s| && forall i :: 0 <= i < |s| ==> r[i] == Obj([s[i]], [])
  {
    if s == [] then [] else [Obj([s[0]], [])] + Chars(s[1..])
  }

  /** The items a `$foreach` enumerates. Mini skips strings
      (`is IEnumerable && is not string`); Hw4 enumerates their characters.
      Anything not enumerable gives no items. */
  function Items(d: Dialect, v: Value): (r: seq<Value>)
    ensures v.Seq? ==> r == v.items
    ensures v.Dict? ==> |r| == |v.entries| && forall i :: 0 <= i < |r| ==> r[i] == Pair(v.entries[i])
    ensures v.Str? ==> r == if d == Mini then [] else Chars(v.s)
    ensures !(v.Seq? || v.Dict? || v.Str?) ==> r == []
  {
    match v
    case Seq(_, _, items) => items
    case Dict(es) => seq(|es|, i requires 0 <= i < |es| => Pair(es[i]))
    case Str(s) => if d == Mini then [] else Chars(s)
    case _ => []
  }

  /** `dict[key] = value`: the first entry whose key equals `key` (under the
      dictionary's comparer) gets the new value and keeps its own key;
      otherwise a new entry is appended. */
  function Put(es: seq<Prop>, key: string, value: Value, ci: bool): (r: seq<Prop>)
    ensures FindProp(r, key, ci) == Some(value)
    ensures |r| == if FindProp(es, key, ci).None? then |es| + 1 else |es|
    ensures forall i :: 0 <= i < |es| ==> r[i].name == es[i].name
    ensures forall i :: 0 <= i < |es| && !EqualsCi(ci, es[i].name, key) ==> r[i] == es[i]
  {
    var k := IndexOfKey(es, key, ci);
    if k == -1 then
      var r := es + [Prop(key, value)];
      IndexOfKeyAt(r, key, ci, |es|);
      r
    else
      var r := es[k := Prop(es[k].name, value)];
      IndexOfKeyAt(r, key, ci, k);
      r
  }

  /** No two keys are equal under the comparer. */
  predicate DistinctKeys(es: seq<Prop>, ci: bool) {
    forall i, j :: 0 <= i < j < |es| ==> !EqualsCi(ci, es[i].name, es[j].name)
  }

  /** `foreach (var kvp in parent) scope[kvp.Key] = kvp.Value;` */
  function CopyInto(scope: seq<Prop>, parent: seq<Prop>, ci: bool): seq<Prop>
    decreases |parent|
  {
    if parent == [] then scope
    else CopyInto(Put(scope, parent[0].name, parent[0].value, ci), parent[1..], ci)
  }

  /** The loop scope of one `$foreach` item: a new dictionary (Mini's ignores
      case) holding the parent dictionary model's entries, then the loop
      variable bound to the item. */
  function LoopScope(d: Dialect, model: Value, name: string, item: Value): Value {
    var parent := if model.Dict? then model.entries else [];
    Dict(Put(CopyInto([], parent, d.IgnoreCase()), name, item, d.IgnoreCase()))
  }

  /** `Put` keeps the keys distinct, and afterwards `key` finds `value` while
      every key not equal to `key` finds what it found before. */
  lemma {:induction false} PutLookup(es: seq<Prop>, key: string, value: Value, ci: bool, other: string)
    requires DistinctKeys(es, ci)
    ensures DistinctKeys(Put(es, key, value, ci), ci)
    ensures FindProp(Put(es, key, value, ci), key, ci) == Some(value)
    ensures !EqualsCi(ci, other, key) ==> FindProp(Put(es, key, value, ci), other, ci) == FindProp(es, other, ci)
  {
    var r := Put(es, key, value, ci);
    var k := IndexOfKey(es, key, ci);
    assert forall i :: 0 <= i < |r| ==> r[i].name == (if i < |es| then es[i].name else key);
    if k == -1 {
      forall i, j | 0 <= i < j < |r| ensures !EqualsCi(ci, r[i].name, r[j].name) {
        if j == |es| {
          EqualsCiSymmetric(ci, es[i].name, key);
        }
      }
    }
    if k == -1 {
      IndexOfKeyAt(r, key, ci, |es|);
    } else {
      IndexOfKeyAt(r, key, ci, k);
    }
    if !EqualsCi(ci, other, key) {
      var o := IndexOfKey(es, other, ci);
      var oo := IndexOfKey(r, other, ci);
      if k != -1 && o == k {
        EqualsCiSymmetric(ci, es[k].name, other);
        EqualsCiTransitive(ci, other, es[k].name, key);
      }
      if oo == |es| {
        EqualsCiSymmetric(ci, key, other);
      }
      assert oo == o;
    }
  }

  /** Copying a parent dictionary into an empty scope keeps its bindings:
      for distinct keys the copy is the parent itself. */
  lemma {:induction false} CopyIntoDistinct(scope: seq<Prop>, parent: seq<Prop>, ci: bool)
    requires DistinctKeys(scope + parent, ci)
    ensures CopyInto(scope, parent, ci) == scope + parent
    decreases |parent|
  {
    if parent != [] {
      var key := parent[0].name;
      assert IndexOfKey(scope, key, ci) == -1 by {
        forall j | 0 <= j < |scope| ensures !EqualsCi(ci, scope[j].name, key) {
          assert (scope + parent)[j] == scope[j];
          assert (scope + parent)[|scope|] == parent[0];
        }
      }
      assert Put(scope, key, parent[0].value, ci) + parent[1..] == scope + parent;
      CopyIntoDistinct(Put(scope, key, parent[0].value, ci), parent[1..], ci);
    }
  }

  /** Inside a loop the item's name finds the item, and every other key
      finds the parent's value. The parent is a real dictionary (its keys
      are distinct under the scope's comparer, as they are for a scope a
      Mini loop builds). */
  lemma LoopScopeBindings(d: Dialect, parent: seq<Prop>, name: string, item: Value, other: string)
    requires DistinctKeys(parent, d.IgnoreCase())
    ensures LoopScope(d, Dict(parent), name, item).Dict?
    ensures DistinctKeys(LoopScope(d, Dict(parent), name, item).entries, d.IgnoreCase())
    ensures FindProp(LoopScope(d, Dict(parent), name, item).entries, name, d.IgnoreCase()) == Some(item)
    ensures !EqualsCi(d.IgnoreCase(), other, name) ==>
      FindProp(LoopScope(d, Dict(parent), name, item).entries, other, d.IgnoreCase()) == FindProp(parent, other, d.IgnoreCase())
  {
    assert [] + parent == parent;
    CopyIntoDistinct([], parent, d.IgnoreCase());
    PutLookup(parent, name, item, d.IgnoreCase(), other);
  }
}
