/**
 * URL and file-name string helpers (OSINTmisc.py): the URL test, joining a
 * relative path onto a site's root URL, and turning arbitrary text into a
 * file-name-safe string.
 */
module OsintMisc {
  import opened Strings

  // ---------------------------------------------------------------------------
  // checkIfURL
  // ---------------------------------------------------------------------------

  predicate StartsWith(s: string, prefix: string) {
    |prefix| <= |s| && s[..|prefix|] == prefix
  }

  /** `.*\.` can match at the start of `s`: a dot occurs before the first newline
      (`.` in a Python regex does not match a newline). */
  predicate DotBeforeNewline(s: string) {
    s != [] && s[0] != '\n' && (s[0] == '.' || DotBeforeNewline(s[1..]))
  }

  /** `re.match(r"https?:\/\/.*\..*", URL)`: the match is anchored at the start only,
      `s?` allows both prefixes, and the trailing `.*` always matches, even "". */
  function CheckIfURL(url: string): bool {
    || (StartsWith(url, "http://") && DotBeforeNewline(url[7..]))
    || (StartsWith(url, "https://") && DotBeforeNewline(url[8..]))
  }

  lemma {:induction false} DotBeforeNewlineMeaning(s: string)
    ensures DotBeforeNewline(s) <==>
            exists i :: 0 <= i < |s| && s[i] == '.' && forall k :: 0 <= k < i ==> s[k] != '\n'
  {
    if s != [] {
      DotBeforeNewlineMeaning(s[1..]);
      if DotBeforeNewline(s) && s[0] != '.' {
        var i :| 0 <= i < |s[1..]| && s[1..][i] == '.' && forall k :: 0 <= k < i ==> s[1..][k] != '\n';
        assert s[i + 1] == '.';
        assert forall k :: 0 <= k < i + 1 ==> s[k] != '\n' by {
          forall k | 0 <= k < i + 1 ensures s[k] != '\n' {
            if k > 0 {
              assert s[k] == s[1..][k - 1];
            }
          }
        }
      }
      if exists i :: 0 <= i < |s| && s[i] == '.' && forall k :: 0 <= k < i ==> s[k] != '\n' {
        var i :| 0 <= i < |s| && s[i] == '.' && forall k :: 0 <= k < i ==> s[k] != '\n';
        if i > 0 {
          assert s[1..][i - 1] == '.';
          assert forall k :: 0 <= k < i - 1 ==> s[1..][k] != '\n' by {
            forall k | 0 <= k < i - 1 ensures s[1..][k] != '\n' {
              assert s[1..][k] == s[k + 1];
            }
          }
        }
      }
    }
  }

  /**
   * The URL test in plain terms: `url` starts with `http://` or `https://`, and a dot
   * follows that prefix before any newline.
   */
  lemma CheckIfURLMeaning(url: string)
    ensures CheckIfURL(url) <==>
            (StartsWith(url, "http://") &&
             exists i :: 7 <= i < |url| && url[i] == '.' && forall k :: 7 <= k < i ==> url[k] != '\n') ||
            (StartsWith(url, "https://") &&
             exists i :: 8 <= i < |url| && url[i] == '.' && forall k :: 8 <= k < i ==> url[k] != '\n')
  {
    if StartsWith(url, "http://") {
      DotAfter(url, 7);
    }
    if StartsWith(url, "https://") {
      DotAfter(url, 8);
    }
  }

  lemma DotAfter(url: string, p: nat)
    requires p <= |url|
    ensures DotBeforeNewline(url[p..]) <==>
            exists i :: p <= i < |url| && url[i] == '.' && forall k :: p <= k < i ==> url[k] != '\n'
  {
    var t := url[p..];
    DotBeforeNewlineMeaning(t);
    if DotBeforeNewline(t) {
      var i :| 0 <= i < |t| && t[i] == '.' && forall k :: 0 <= k < i ==> t[k] != '\n';
      assert url[p + i] == '.';
      assert forall k :: p <= k < p + i ==> url[k] != '\n' by {
        forall k | p <= k < p + i ensures url[k] != '\n' {
          assert url[k] == t[k - p];
        }
      }
    }
    if exists i :: p <= i < |url| && url[i] == '.' && forall k :: p <= k < i ==> url[k] != '\n' {
      var i :| p <= i < |url| && url[i] == '.' && forall k :: p <= k < i ==> url[k] != '\n';
      assert t[i - p] == '.';
      assert forall k :: 0 <= k < i - p ==> t[k] != '\n' by {
        forall k | 0 <= k < i - p ensures t[k] != '\n' {
          assert t[k] == url[k + p];
        }
      }
    }
  }

  // ---------------------------------------------------------------------------
  // catURL
  // ---------------------------------------------------------------------------

  /** `rootURL[:-1]`: Python's slice drops the last character and leaves "" as "". */
  function DropLast(s: string): (r: string)
    ensures |r| == if s == [] then 0 else |s| - 1
    ensures r == s[..|r|]
  {
    if s == [] then [] else s[..|s| - 1]
  }

  /** `catURL`: an absolute URL is kept as it is; anything else is appended to the
      root URL with the root's last character (its trailing slash) dropped. */
  function CatURL(rootURL: string, relativePath: string): (r: string)
    ensures |relativePath| <= |r| && r[|r| - |relativePath|..] == relativePath
    ensures CheckIfURL(relativePath) ==> r == relativePath
    ensures !CheckIfURL(relativePath) ==>
              |r| == |relativePath| + (if rootURL == [] then 0 else |rootURL| - 1) &&
              r[..|r| - |relativePath|] == rootURL[..|r| - |relativePath|]
  {
    if CheckIfURL(relativePath) then relativePath else DropLast(rootURL) + relativePath
  }

  /**
   * Once the root (less its last character) passes the URL test, every joined path
   * passes it too, so joining the result a second time leaves it as it is.
   */
  lemma CatURLIdempotent(rootURL: string, relativePath: string)
    requires CheckIfURL(DropLast(rootURL))
    ensures CheckIfURL(CatURL(rootURL, relativePath))
    ensures CatURL(rootURL, CatURL(rootURL, relativePath)) == CatURL(rootURL, relativePath)
  {
    if !CheckIfURL(relativePath) {
      CheckIfURLAppend(DropLast(rootURL), relativePath);
    }
  }

  /** The URL test only looks at a prefix: text appended to a URL keeps it a URL. */
  lemma CheckIfURLAppend(url: string, tail: string)
    requires CheckIfURL(url)
    ensures CheckIfURL(url + tail)
  {
    var p := if StartsWith(url, "http://") && DotBeforeNewline(url[7..]) then 7 else 8;
    assert (url + tail)[..p] == url[..p];
    assert (url + tail)[p..] == url[p..] + tail;
    DotBeforeNewlineAppend(url[p..], tail);
  }

  lemma {:induction false} DotBeforeNewlineAppend(s: string, tail: string)
    requires DotBeforeNewline(s)
    ensures DotBeforeNewline(s + tail)
  {
    assert (s + tail)[0] == s[0];
    if s[0] != '.' {
      assert (s + tail)[1..] == s[1..] + tail;
      DotBeforeNewlineAppend(s[1..], tail);
    }
  }

  // ---------------------------------------------------------------------------
  // fileSafeString
  // ---------------------------------------------------------------------------

  /** The characters of `allowedCharacthers`: `[a-zA-Z0-9-_]`. */
  predicate IsAllowed(c: char) {
    IsLetter(c) || ('0' <= c <= '9') || c == '-' || c == '_'
  }

  function TrimStart(s: string): (r: string)
    ensures |r| <= |s| && r == s[|s| - |r|..]
    ensures forall i :: 0 <= i < |s| - |r| ==> IsSpace(s[i])
    ensures r == [] || !IsSpace(r[0])
  {
    if s == [] || !IsSpace(s[0]) then s else TrimStart(s[1..])
  }

  function TrimEnd(s: string): (r: string)
    ensures |r| <= |s| && r == s[..|r|]
    ensures forall i :: |r| <= i < |s| ==> IsSpace(s[i])
    ensures r == [] || !IsSpace(r[|r| - 1])
  {
    if s == [] || !IsSpace(s[|s| - 1]) then s else TrimEnd(s[..|s| - 1])
  }

  /** `str.strip()`: leading and trailing whitespace removed. */
  function Strip(s: string): (r: string)
    ensures r == [] || (!IsSpace(r[0]) && !IsSpace(r[|r| - 1]))
  {
    TrimEnd(TrimStart(s))
  }

  /**
   * What `strip` keeps: one contiguous slice of `s` with whitespace only before and
   * after it; with the non-whitespace ends above, that slice is the only one possible.
   */
  lemma StripMeaning(s: string)
    ensures var r, a := Strip(s), |s| - |TrimStart(s)|;
            && a + |r| <= |s| && r == s[a..a + |r|]
            && (forall i :: 0 <= i < a ==> IsSpace(s[i]))
            && (forall i :: a + |r| <= i < |s| ==> IsSpace(s[i]))
  {
    var t := TrimStart(s);
    var r := TrimEnd(t);
    StripSlice(s, t, r);
  }

  /** A whitespace-only tail of the suffix `t` is whitespace in `s` as well. */
  lemma StripSlice(s: string, t: string, r: string)
    requires |r| <= |t| <= |s| && t == s[|s| - |t|..] && r == t[..|r|]
    requires forall i :: |r| <= i < |t| ==> IsSpace(t[i])
    requires forall i :: 0 <= i < |s| - |t| ==> IsSpace(s[i])
    ensures var a := |s| - |t|;
            && a + |r| <= |s| && r == s[a..a + |r|]
            && (forall i :: 0 <= i < a ==> IsSpace(s[i]))
            && (forall i :: a + |r| <= i < |s| ==> IsSpace(s[i]))
  {
    var a := |s| - |t|;
    forall i | a + |r| <= i < |s| ensures IsSpace(s[i]) {
      assert s[i] == t[i - a];
    }
  }

  /** `.replace(" ", "-")`. */
  function SpacesToDashes(s: string): (r: string)
    ensures |r| == |s|
    ensures forall i :: 0 <= i < |s| ==> r[i] == (if s[i] == ' ' then '-' else s[i])
  {
    if s == [] then [] else [if s[0] == ' ' then '-' else s[0]] + SpacesToDashes(s[1..])
  }

  /** `''.join(c for c in s if c in allowedCharacthers)`. */
  function KeepAllowed(s: string): (r: string)
    ensures forall i :: 0 <= i < |r| ==> IsAllowed(r[i])
  {
    if s == [] then []
    else (if IsAllowed(s[0]) then [s[0]] else []) + KeepAllowed(s[1..])
  }

  /** `fileSafeString`. */
  function FileSafeString(unsafeString: string): (safeString: string)
    ensures forall i :: 0 <= i < |safeString| ==> IsAllowed(safeString[i])
    ensures |safeString| <= |unsafeString|
  {
    var s := SpacesToDashes(Strip(unsafeString));
    KeepAllowedSubseq(s);
    SubseqLength(KeepAllowed(s), s);
    KeepAllowed(s)
  }

  lemma {:induction false} KeepAllowedSubseq(s: string)
    ensures IsSubseq(KeepAllowed(s), s)
  {
    if s != [] {
      KeepAllowedSubseq(s[1..]);
      if IsAllowed(s[0]) {
        assert KeepAllowed(s)[1..] == KeepAllowed(s[1..]);
      } else {
        assert KeepAllowed(s) == KeepAllowed(s[1..]);
        SubseqConsRight(KeepAllowed(s[1..]), s[0], s[1..]);
        assert [s[0]] + s[1..] == s;
      }
    }
  }

  lemma {:induction false} KeepAllowedCount(s: string, c: char)
    ensures Count(KeepAllowed(s), c) == if IsAllowed(c) then Count(s, c) else 0
  {
    if s != [] {
      KeepAllowedCount(s[1..], c);
      var head := if IsAllowed(s[0]) then [s[0]] else [];
      CountAppend(head, KeepAllowed(s[1..]), c);
    }
  }

  /**
   * What `fileSafeString` keeps: its output is the stripped input with spaces turned
   * into dashes, from which exactly the characters outside `[a-zA-Z0-9-_]` are deleted,
   * order preserved: every allowed character survives as often as it occurred.
   */
  lemma FileSafeStringKeeps(unsafeString: string)
    ensures IsSubseq(FileSafeString(unsafeString), SpacesToDashes(Strip(unsafeString)))
    ensures forall c :: Count(FileSafeString(unsafeString), c) ==
              if IsAllowed(c) then Count(SpacesToDashes(Strip(unsafeString)), c) else 0
  {
    var s := SpacesToDashes(Strip(unsafeString));
    KeepAllowedSubseq(s);
    forall c ensures Count(KeepAllowed(s), c) == if IsAllowed(c) then Count(s, c) else 0 {
      KeepAllowedCount(s, c);
    }
  }

  lemma {:induction false} KeepAllowedIdentity(s: string)
    requires forall i :: 0 <= i < |s| ==> IsAllowed(s[i])
    ensures KeepAllowed(s) == s
  {
    if s != [] {
      KeepAllowedIdentity(s[1..]);
    }
  }

  lemma {:induction false} SpacesToDashesIdentity(s: string)
    requires ' ' !in s
    ensures SpacesToDashes(s) == s
  {
  }

  /** A string made only of allowed characters passes through `fileSafeString` unchanged. */
  lemma {:induction false} FileSafeStringFixes(s: string)
    requires forall i :: 0 <= i < |s| ==> IsAllowed(s[i])
    ensures FileSafeString(s) == s
  {
    if s != [] {
      AllowedNotSpace(s[0]);
      AllowedNotSpace(s[|s| - 1]);
    }
    assert ' ' !in s by {
      forall i | 0 <= i < |s| ensures s[i] != ' ' {
        AllowedNotSpace(s[i]);
      }
    }
    SpacesToDashesIdentity(s);
    KeepAllowedIdentity(s);
    assert FileSafeString(s) == KeepAllowed(SpacesToDashes(Strip(s)));
  }

  lemma AllowedNotSpace(c: char)
    requires IsAllowed(c)
    ensures !IsSpace(c)
  {
  }

  /** Converting an already file-safe string changes nothing: the conversion is idempotent. */
  lemma FileSafeStringIdempotent(unsafeString: string)
    ensures FileSafeString(FileSafeString(unsafeString)) == FileSafeString(unsafeString)
  {
    FileSafeStringFixes(FileSafeString(unsafeString));
  }
}
