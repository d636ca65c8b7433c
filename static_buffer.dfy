/** `Buffer.TryGetFile` of the earlier server: a request path is resolved
    against the files found under the static directory by comparing path
    segments from the end. The directory listing is an input: `None` when
    the directory cannot be enumerated, otherwise the enumerated files in
    enumeration order. */
module StaticBuffer {
  import opened Text

  /** The file served when nothing else is found. */
  function NotFoundPath(root: string): string {
    root + "404.html"
  }

  /** A path, with '/' turned into the directory separator, split at the
      separator with empty parts dropped. */
  function Segments(path: string, sep: char): (r: seq<string>)
    ensures forall p | p in r :: p != [] && sep !in p
  {
    SplitNonEmpty(ReplaceChar(path, '/', sep), sep)
  }

  /** A candidate is accepted when it has at least as many segments as the
      target and its last ones equal the target's, ignoring case. */
  predicate EndsWithParts(fileParts: seq<string>, targetParts: seq<string>) {
    |fileParts| >= |targetParts|
    && forall i :: 0 <= i < |targetParts| ==> EqualsCi(true, fileParts[|fileParts| - |targetParts| + i], targetParts[i])
  }

  /** The first accepted candidate at or after `from`. */
  function FirstAccepted(files: seq<string>, target: seq<string>, sep: char, from: nat): (r: Option<nat>)
    requires from <= |files|
    ensures r.Some? ==> from <= r.value < |files| && EndsWithParts(Segments(files[r.value], sep), target)
    ensures r.Some? ==> forall k :: from <= k < r.value ==> !EndsWithParts(Segments(files[k], sep), target)
    ensures r.None? ==> forall k :: from <= k < |files| ==> !EndsWithParts(Segments(files[k], sep), target)
    decreases |files| - from
  {
    if from == |files| then None
    else if EndsWithParts(Segments(files[from], sep), target) then Some(from)
    else FirstAccepted(files, target, sep, from + 1)
  }

  /** What `TryGetFile` returns: a blank path, a path without segments or a
      directory that cannot be listed gives the 404 page; otherwise the first
      accepted candidate, or the 404 page when none is accepted. */
  function Resolve(path: string, root: string, sep: char, listing: Option<seq<string>>): (r: string)
    ensures r == NotFoundPath(root) || (listing.Some? && r in listing.value)
    ensures IsBlank(path) || |Segments(path, sep)| == 0 || listing.None? ==> r == NotFoundPath(root)
  {
    if IsBlank(path) then NotFoundPath(root)
    else
      var target := Segments(path, sep);
      if |target| == 0 || listing.None? then NotFoundPath(root)
      else
        match FirstAccepted(listing.value, target, sep, 0)
        case None => NotFoundPath(root)
        case Some(i) => listing.value[i]
  }

  /** With a listing and a path that has segments, the result is the first
      accepted candidate in enumeration order, or the 404 page when no
      candidate is accepted. */
  lemma ResolveIsFirstAccepted(path: string, root: string, sep: char, files: seq<string>)
    requires !IsBlank(path) && |Segments(path, sep)| > 0
    ensures var target := Segments(path, sep);
      var r := Resolve(path, root, sep, Some(files));
      || (exists i :: 0 <= i < |files| && r == files[i] && EndsWithParts(Segments(files[i], sep), target)
            && forall k :: 0 <= k < i ==> !EndsWithParts(Segments(files[k], sep), target))
      || (r == NotFoundPath(root) && forall k :: 0 <= k < |files| ==> !EndsWithParts(Segments(files[k], sep), target))
  {
    var target := Segments(path, sep);
    match FirstAccepted(files, target, sep, 0)
    case None =>
    case Some(i) =>
  }

  /** The inner `for` loop: compares the last segments, stopping at the
      first difference. */
  method CompareLastParts(fileParts: seq<string>, targetParts: seq<string>) returns (matched: bool)
    requires |fileParts| >= |targetParts|
    ensures matched == EndsWithParts(fileParts, targetParts)
  {
    matched := true;
    var i := 0;
    while i < |targetParts|
      invariant 0 <= i <= |targetParts|
      invariant matched ==> forall k :: 0 <= k < i ==> EqualsCi(true, fileParts[|fileParts| - |targetParts| + k], targetParts[k])
      invariant !matched ==> !EndsWithParts(fileParts, targetParts)
    {
      var filePart := fileParts[|fileParts| - |targetParts| + i];
      if !EqualsCi(true, filePart, targetParts[i]) {
        matched := false;
        break;
      }
      i := i + 1;
    }
  }

  /** `TryGetFile`: the `foreach` over the enumerated files returns the
      first one whose segments end with the target's. */
  method TryGetFile(path: string, root: string, sep: char, listing: Option<seq<string>>) returns (result: string)
    ensures result == Resolve(path, root, sep, listing)
  {
    if IsBlank(path) {
      return NotFoundPath(root);
    }
    var targetParts := Segments(path, sep);
    if |targetParts| == 0 || listing.None? {
      return NotFoundPath(root);
    }
    var files := listing.value;
    var n := 0;
    while n < |files|
      invariant 0 <= n <= |files|
      invariant FirstAccepted(files, targetParts, sep, 0) == FirstAccepted(files, targetParts, sep, n)
    {
      var fullPath := files[n];
      var fileParts := Segments(fullPath, sep);
      if |fileParts| >= |targetParts| {
        var matched := CompareLastParts(fileParts, targetParts);
        if matched {
          return fullPath;
        }
      }
      n := n + 1;
    }
    return NotFoundPath(root);
  }

  /** '/' and the separator are interchangeable in the request path, as
      long as the separator is not white space. */
  lemma SlashIsSeparator(path: string, root: string, sep: char, listing: Option<seq<string>>)
    requires !IsSpace(sep)
    ensures Resolve(ReplaceChar(path, '/', sep), root, sep, listing) == Resolve(path, root, sep, listing)
  {
    var p := ReplaceChar(path, '/', sep);
    assert ReplaceChar(p, '/', sep) == p;
    assert IsBlank(p) == IsBlank(path) by {
      if IsBlank(p) {
        forall i | 0 <= i < |path| ensures IsSpace(path[i]) {
          assert IsSpace(p[i]);
        }
      }
    }
  }

  /** Target segments are compared ignoring case: targets that differ only
      in the case of ASCII letters accept the same candidates. */
  lemma TargetCaseIgnored(fileParts: seq<string>, target1: seq<string>, target2: seq<string>)
    requires |target1| == |target2|
    requires forall i :: 0 <= i < |target1| ==> EqualsCi(true, target1[i], target2[i])
    ensures EndsWithParts(fileParts, target1) == EndsWithParts(fileParts, target2)
  {
    if |fileParts| >= |target1| {
      var off := |fileParts| - |target1|;
      forall i | 0 <= i < |target1|
        ensures EqualsCi(true, fileParts[off + i], target1[i]) == EqualsCi(true, fileParts[off + i], target2[i])
      {
        var f := fileParts[off + i];
        var a := target1[i];
        var b := target2[i];
        if |f| == |a| {
          assert forall k :: 0 <= k < |a| ==> (CharEq(true, f[k], a[k]) <==> CharEq(true, f[k], b[k])) by {
            assert forall k :: 0 <= k < |a| ==> CharEq(true, a[k], b[k]);
          }
        }
      }
    }
  }
}
