/** `GetResponseBytes` of the later server: which file under `Public` a
    request path is served from. The file system is an input record: the
    existing files and directories, whether `Public` exists, and what a
    recursive search for a file name enumerates. The result is the path that
    would be read, or `None` where the source returns null. */
module PublicFiles {
  import opened Text

  const PublicFolder: string := "Public"

  /** The file system as the resolution sees it. */
  datatype FileSystem = FileSystem(
    files: set<string>,
    directories: set<string>,
    publicExists: bool,
    enumerate: string -> seq<string>)

  /** A directory separator: the platform's own or `/`. */
  predicate IsSeparator(c: char, sep: char) {
    c == sep || c == '/'
  }

  /** `Path.Combine(a, b)`: `b` when it is rooted, otherwise `a` and `b`
      joined by one separator. */
  function Combine(a: string, b: string, sep: char): string {
    if b != [] && IsSeparator(b[0], sep) then b
    else if a == [] then b
    else if IsSeparator(a[|a| - 1], sep) then a + b
    else a + [sep] + b
  }

  /** `Path.HasExtension`: scanning back from the end, a '.' met before any
      separator, and not the last character. */
  function HasExtensionFrom(path: string, i: nat, sep: char): bool
    requires i <= |path|
    decreases i
  {
    if i == 0 then false
    else if path[i - 1] == '.' then i != |path|
    else if IsSeparator(path[i - 1], sep) then false
    else HasExtensionFrom(path, i - 1, sep)
  }

  predicate HasExtension(path: string, sep: char) {
    HasExtensionFrom(path, |path|, sep)
  }

  /** `k` is a '.' before position `i` that is not the last character of
      the path and is followed, up to `i`, by no other '.' and no separator. */
  predicate ExtensionDotAt(path: string, sep: char, k: int, i: nat)
    requires i <= |path|
  {
    0 <= k < i && k < |path| - 1 && path[k] == '.'
    && forall m :: k < m < i ==> path[m] != '.' && !IsSeparator(path[m], sep)
  }

  /** A path has an extension exactly when its last segment holds a '.'
      that is followed by at least one character and by no other '.'. */
  lemma {:induction false} HasExtensionIff(path: string, sep: char, i: nat)
    requires i <= |path|
    ensures HasExtensionFrom(path, i, sep) <==> exists k :: ExtensionDotAt(path, sep, k, i)
    decreases i
  {
    if i == 0 {
      assert forall k :: !ExtensionDotAt(path, sep, k, i);
    } else if path[i - 1] == '.' {
      forall k | k != i - 1 ensures !ExtensionDotAt(path, sep, k, i) {
        if 0 <= k < i - 1 {
          assert path[i - 1] == '.';
        }
      }
      if i != |path| {
        assert ExtensionDotAt(path, sep, i - 1, i);
      } else {
        assert !ExtensionDotAt(path, sep, i - 1, i);
      }
    } else if IsSeparator(path[i - 1], sep) {
      forall k ensures !ExtensionDotAt(path, sep, k, i) {
        if 0 <= k < i - 1 {
          assert IsSeparator(path[i - 1], sep);
        }
      }
    } else {
      HasExtensionIff(path, sep, i - 1);
      forall k ensures ExtensionDotAt(path, sep, k, i) <==> ExtensionDotAt(path, sep, k, i - 1) {
        if k == i - 1 {
          assert path[k] != '.';
        }
      }
      if HasExtensionFrom(path, i - 1, sep) {
        var k :| ExtensionDotAt(path, sep, k, i - 1);
        assert ExtensionDotAt(path, sep, k, i);
      } else {
        assert forall k :: !ExtensionDotAt(path, sep, k, i);
      }
    }
  }

  /** `TrimStart(c)`: the index of the first character that is not `c`. */
  function SkipChar(s: string, c: char, i: nat): (j: nat)
    requires i <= |s|
    ensures i <= j <= |s|
    ensures forall k :: i <= k < j ==> s[k] == c
    ensures j == |s| || s[j] != c
    decreases |s| - i
  {
    if i < |s| && s[i] == c then SkipChar(s, c, i + 1) else i
  }

  /** A character that `Normalize` turns into the separator. */
  predicate IsAnySeparator(c: char, sep: char) {
    c == '/' || c == '\\' || c == sep
  }

  /** The two separator replacements and the trim of leading separators:
      the result is the request path without its leading separators, with
      each remaining `/` and `\` written as the separator. */
  function Normalize(path: string, sep: char): (n: string)
    ensures n == [] || n[0] != sep
    ensures forall i :: 0 <= i < |n| && (n[i] == '/' || n[i] == '\\') ==> n[i] == sep
    ensures |n| <= |path|
    ensures forall j :: 0 <= j < |path| - |n| ==> IsAnySeparator(path[j], sep)
    ensures forall i :: 0 <= i < |n| ==>
      n[i] == if IsAnySeparator(path[|path| - |n| + i], sep) then sep else path[|path| - |n| + i]
  {
    var replaced := ReplaceChar(ReplaceChar(path, '/', sep), '\\', sep);
    ReplacedSeparators(path, sep);
    replaced[SkipChar(replaced, sep, 0)..]
  }

  /** Both replacements write every separator character as `sep`. */
  lemma ReplacedSeparators(path: string, sep: char)
    ensures var r := ReplaceChar(ReplaceChar(path, '/', sep), '\\', sep);
      && |r| == |path|
      && forall j :: 0 <= j < |path| ==> r[j] == if IsAnySeparator(path[j], sep) then sep else path[j]
  {
  }

  /** `Path.GetFileName`: the text after the last separator. */
  function FileName(path: string, sep: char): (r: string)
    ensures |r| <= |path|
    ensures forall i :: 0 <= i < |r| ==> !IsSeparator(r[i], sep)
    decreases |path|
  {
    if path == [] then []
    else if IsSeparator(path[|path| - 1], sep) then []
    else FileName(path[..|path| - 1], sep) + [path[|path| - 1]]
  }

  /** `file.EndsWith(suffix, StringComparison.OrdinalIgnoreCase)`. */
  predicate EndsWithCi(file: string, suffix: string) {
    |suffix| <= |file| && MatchesAt(file, |file| - |suffix|, suffix, true)
  }

  /** The first file ending with the normalised path at or after `from`. */
  function FirstEndingWith(files: seq<string>, suffix: string, from: nat): (r: Option<nat>)
    requires from <= |files|
    ensures r.Some? ==> from <= r.value < |files| && EndsWithCi(files[r.value], suffix)
    ensures r.Some? ==> forall k :: from <= k < r.value ==> !EndsWithCi(files[k], suffix)
    ensures r.None? ==> forall k :: from <= k < |files| ==> !EndsWithCi(files[k], suffix)
    decreases |files| - from
  {
    if from == |files| then None
    else if EndsWithCi(files[from], suffix) then Some(from)
    else FirstEndingWith(files, suffix, from + 1)
  }

  /** What `TryGetFile` reads, given the normalised path. */
  function ResolveNormalized(normalized: string, fs: FileSystem, sep: char): (r: Option<string>)
    ensures r.Some? ==> !Contains(normalized, "..", false)
  {
    if Contains(normalized, "..", false) then None
    else
      var direct := Combine(PublicFolder, normalized, sep);
      if direct in fs.files then Some(direct)
      else if !fs.publicExists then None
      else
        var matching := fs.enumerate(FileName(normalized, sep));
        match FirstEndingWith(matching, normalized, 0)
        case Some(i) => Some(matching[i])
        case None => if matching == [] then None else Some(matching[0])
  }

  /** What `TryGetFile` reads for a request path. */
  function Resolve(path: string, fs: FileSystem, sep: char): (r: Option<string>)
    ensures r.Some? ==> !Contains(Normalize(path, sep), "..", false)
  {
    ResolveNormalized(Normalize(path, sep), fs, sep)
  }

  /** `TryGetFile`: the checks in order, then the `foreach` that stops at the
      first file ending with the normalised path, then the fallback to the
      first enumerated file. */
  method TryGetFile(path: string, fs: FileSystem, sep: char) returns (target: Option<string>)
    ensures target == Resolve(path, fs, sep)
  {
    var normalizedPath := ReplaceChar(ReplaceChar(path, '/', sep), '\\', sep);
    normalizedPath := normalizedPath[SkipChar(normalizedPath, sep, 0)..];
    if Contains(normalizedPath, "..", false) {
      return None;
    }
    var directPath := Combine(PublicFolder, normalizedPath, sep);
    if directPath in fs.files {
      return Some(directPath);
    }
    var fileName := FileName(normalizedPath, sep);
    target := None;
    if !fs.publicExists {
      return None;
    }
    var matchingFiles := fs.enumerate(fileName);
    var n := 0;
    while n < |matchingFiles|
      invariant 0 <= n <= |matchingFiles|
      invariant FirstEndingWith(matchingFiles, normalizedPath, 0) == FirstEndingWith(matchingFiles, normalizedPath, n)
    {
      if EndsWithCi(matchingFiles[n], normalizedPath) {
        target := Some(matchingFiles[n]);
        break;
      }
      n := n + 1;
    }
    if target.None? {
      target := if matchingFiles == [] then None else Some(matchingFiles[0]);
    }
  }

  /** `Invoke`: a blank path is served as `index.html`; a path with an
      extension as it is; an extensionless path naming a directory under
      `Public` as that directory's `index.html`; anything else as it is. */
  function Invoke(path: string, fs: FileSystem, sep: char): (r: Option<string>)
    ensures IsBlank(path) ==> r == Resolve("index.html", fs, sep)
    ensures !IsBlank(path) && HasExtension(path, sep) ==> r == Resolve(path, fs, sep)
    ensures !IsBlank(path) && !HasExtension(path, sep) && Combine(PublicFolder, path, sep) in fs.directories
      ==> r == Resolve(Combine(path, "index.html", sep), fs, sep)
    ensures !IsBlank(path) && !HasExtension(path, sep) && Combine(PublicFolder, path, sep) !in fs.directories
      ==> r == Resolve(path, fs, sep)
  {
    if IsBlank(path) then Resolve("index.html", fs, sep)
    else if HasExtension(path, sep) then Resolve(path, fs, sep)
    else if Combine(PublicFolder, path, sep) in fs.directories then Resolve(Combine(path, "index.html", sep), fs, sep)
    else Resolve(path, fs, sep)
  }

  /** A blank path is served `Public/index.html` when that file exists. */
  lemma InvokeServesRootIndex(path: string, fs: FileSystem, sep: char)
    requires sep == '/' || sep == '\\'
    requires IsBlank(path) && PublicFolder + [sep] + "index.html" in fs.files
    ensures Invoke(path, fs, sep) == Some(PublicFolder + [sep] + "index.html")
  {
    var page := "index.html";
    assert forall k :: 0 <= k < |page| ==> IsWordChar(page[k]) || k == 5;
    ServesExisting(page, fs, sep);
  }

  /** The name of a directory under `Public` is served that directory's
      `index.html` when that file exists. */
  lemma InvokeServesDirectoryIndex(name: string, fs: FileSystem, sep: char)
    requires sep == '/' || sep == '\\'
    requires IsWord(name) && PublicFolder + [sep] + name in fs.directories
    requires PublicFolder + [sep] + name + [sep] + "index.html" in fs.files
    ensures Invoke(name, fs, sep) == Some(PublicFolder + [sep] + name + [sep] + "index.html")
  {
    var page := "index.html";
    var p := name + [sep] + page;
    assert !IsBlank(name) by { assert !IsSpace(name[0]); }
    NoDotNoExtension(name, sep, |name|);
    assert Combine(PublicFolder, name, sep) == PublicFolder + [sep] + name by {
      assert !IsSeparator(name[0], sep);
    }
    assert Combine(name, page, sep) == p by {
      assert !IsSeparator(name[|name| - 1], sep);
    }
    assert Invoke(name, fs, sep) == Resolve(p, fs, sep);
    DirectoryIndexPath(name, sep);
    ServesExisting(p, fs, sep);
    assert PublicFolder + [sep] + p == PublicFolder + [sep] + name + [sep] + "index.html";
  }

  /** `name/index.html` is made of words, separators and single dots. */
  lemma DirectoryIndexPath(name: string, sep: char)
    requires sep == '/' || sep == '\\'
    requires IsWord(name)
    ensures var p := name + [sep] + "index.html";
      && (forall k :: 0 <= k < |p| ==> IsWordChar(p[k]) || p[k] == '.' || p[k] == sep)
      && (forall k :: 0 <= k < |p| - 1 && p[k] == '.' ==> p[k + 1] != '.')
  {
    var page := "index.html";
    assert forall k :: 0 <= k < |page| ==> IsWordChar(page[k]) || k == 5;
    var p := name + [sep] + page;
    forall k | 0 <= k < |p| ensures IsWordChar(p[k]) || p[k] == '.' || p[k] == sep {
      if k > |name| { assert p[k] == page[k - |name| - 1]; }
    }
    forall k | 0 <= k < |p| - 1 ensures p[k] != '.' || p[k + 1] != '.' {
      if k < |name| {
        assert p[k] == name[k];
      } else if k > |name| {
        assert p[k] == page[k - |name| - 1] && p[k + 1] == page[k - |name|];
      }
    }
  }

  /** An existing file named by a relative path of words, separators and
      single dots is served as it is. */
  lemma ServesExisting(p: string, fs: FileSystem, sep: char)
    requires sep == '/' || sep == '\\'
    requires |p| > 0 && IsWordChar(p[0])
    requires forall k :: 0 <= k < |p| ==> IsWordChar(p[k]) || p[k] == '.' || p[k] == sep
    requires forall k :: 0 <= k < |p| - 1 && p[k] == '.' ==> p[k + 1] != '.'
    ensures Combine(PublicFolder, p, sep) == PublicFolder + [sep] + p
    ensures PublicFolder + [sep] + p in fs.files ==> Resolve(p, fs, sep) == Some(PublicFolder + [sep] + p)
  {
    PlainNameNormalized(p, sep);
    assert !Contains(p, "..", false) by {
      forall j | 0 <= j ensures !MatchesAt(p, j, "..", false) {
        if j + 1 >= |p| {
        } else if p[j] != '.' {
          assert !CharEq(false, p[j + 0], ".."[0]);
        } else {
          assert !CharEq(false, p[j + 1], ".."[1]);
        }
      }
    }
    assert !IsSeparator(p[0], sep);
  }

  /** A path made of word characters, '.' and separators, starting with a
      word character, normalises to itself. */
  lemma PlainNameNormalized(p: string, sep: char)
    requires sep == '/' || sep == '\\'
    requires |p| > 0 && IsWordChar(p[0])
    requires forall k :: 0 <= k < |p| ==> IsWordChar(p[k]) || p[k] == '.' || p[k] == sep
    ensures Normalize(p, sep) == p
  {
    var replaced := ReplaceChar(ReplaceChar(p, '/', sep), '\\', sep);
    assert replaced == p;
    assert SkipChar(replaced, sep, 0) == 0;
  }

  /** A path with no '.' before `i` has no extension there. */
  lemma {:induction false} NoDotNoExtension(path: string, sep: char, i: nat)
    requires i <= |path|
    requires forall k :: 0 <= k < i ==> path[k] != '.'
    ensures !HasExtensionFrom(path, i, sep)
    decreases i
  {
    if i > 0 && !IsSeparator(path[i - 1], sep) {
      NoDotNoExtension(path, sep, i - 1);
    }
  }

  /** A normalised path containing `..` is refused without looking at the
      file system at all. */
  lemma TraversalRefused(path: string, fs1: FileSystem, fs2: FileSystem, sep: char)
    requires Contains(Normalize(path, sep), "..", false)
    ensures Resolve(path, fs1, sep) == None && Resolve(path, fs2, sep) == None
  {
  }

  /** What is served is the direct file when it exists; otherwise the first
      enumerated file ending with the normalised path, else the first file
      with the same name, else nothing. */
  lemma ResolveChoice(path: string, fs: FileSystem, sep: char)
    requires !Contains(Normalize(path, sep), "..", false)
    ensures var n := Normalize(path, sep);
      var direct := Combine(PublicFolder, n, sep);
      var matching := fs.enumerate(FileName(n, sep));
      var r := Resolve(path, fs, sep);
      && (direct in fs.files ==> r == Some(direct))
      && (direct !in fs.files && fs.publicExists ==>
            || (exists i :: 0 <= i < |matching| && r == Some(matching[i]) && EndsWithCi(matching[i], n)
                  && forall k :: 0 <= k < i ==> !EndsWithCi(matching[k], n))
            || ((forall k :: 0 <= k < |matching| ==> !EndsWithCi(matching[k], n))
                  && r == (if matching == [] then None else Some(matching[0]))))
      && (direct !in fs.files && !fs.publicExists ==> r == None)
  {
    var n := Normalize(path, sep);
    var matching := fs.enumerate(FileName(n, sep));
    match FirstEndingWith(matching, n, 0)
    case None =>
    case Some(i) =>
  }

  /** A leading separator, or a `\`, makes no difference to what is served. */
  lemma LeadingSeparatorIgnored(path: string, fs: FileSystem, sep: char)
    ensures Resolve([sep] + path, fs, sep) == Resolve(path, fs, sep)
    ensures Resolve(ReplaceChar(path, '\\', sep), fs, sep) == Resolve(path, fs, sep)
  {
    NormalizeDropsLeadingSeparator(path, sep);
    NormalizeReplacesBackslash(path, sep);
  }

  lemma NormalizeDropsLeadingSeparator(path: string, sep: char)
    ensures Normalize([sep] + path, sep) == Normalize(path, sep)
  {
    var r1 := ReplaceChar(ReplaceChar(path, '/', sep), '\\', sep);
    var r2 := ReplaceChar(ReplaceChar([sep] + path, '/', sep), '\\', sep);
    assert r2 == [sep] + r1 by {
      assert |r2| == |[sep] + r1|;
      forall i | 0 <= i < |r2| ensures r2[i] == ([sep] + r1)[i] {
        if i > 0 {
          assert ([sep] + path)[i] == path[i - 1];
        }
      }
    }
    SkipShift(r1, sep, 0);
    assert SkipChar(r2, sep, 0) == SkipChar(r2, sep, 1);
    assert r2[1 + SkipChar(r1, sep, 0)..] == r1[SkipChar(r1, sep, 0)..];
  }

  lemma NormalizeReplacesBackslash(path: string, sep: char)
    ensures Normalize(ReplaceChar(path, '\\', sep), sep) == Normalize(path, sep)
  {
    var p3 := ReplaceChar(path, '\\', sep);
    assert ReplaceChar(ReplaceChar(p3, '/', sep), '\\', sep) == ReplaceChar(ReplaceChar(path, '/', sep), '\\', sep);
  }

  /** Writing `/` as the separator beforehand makes no difference. */
  lemma NormalizeReplacesSlash(path: string, sep: char)
    ensures Normalize(ReplaceChar(path, '/', sep), sep) == Normalize(path, sep)
  {
    var p2 := ReplaceChar(path, '/', sep);
    assert ReplaceChar(ReplaceChar(p2, '/', sep), '\\', sep) == ReplaceChar(ReplaceChar(path, '/', sep), '\\', sep);
  }

  /** Skipping in a string with one more character in front. */
  lemma {:induction false} SkipShift(s: string, c: char, i: nat)
    requires i <= |s|
    ensures SkipChar([c] + s, c, i + 1) == 1 + SkipChar(s, c, i)
    decreases |s| - i
  {
    assert ([c] + s)[i + 1..] == s[i..];
    if i < |s| && s[i] == c {
      SkipShift(s, c, i + 1);
    }
  }
}
