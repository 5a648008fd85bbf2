/**
 * Tag generation from article text (OSINTtext.py).
 *
 * `CleanText` is the chain of regular-expression substitutions followed by a
 * split on single spaces; `GenerateTags` filters the tokens against a list of
 * common words, ranks the rest the way `Counter.most_common(10)` does and
 * keeps the words seen more than twice.
 */
module OsintText {
  import opened Strings

  // ---------------------------------------------------------------------------
  // cleanText, step by step
  // ---------------------------------------------------------------------------

  /** `re.sub(r'\n', ' ', s)`: every newline becomes a space, nothing else moves. */
  function ReplaceNewlines(s: string): (r: string)
    ensures |r| == |s|
    ensures forall i :: 0 <= i < |s| ==> r[i] == (if s[i] == '\n' then ' ' else s[i])
    ensures '\n' !in r
  {
    if s == [] then [] else [if s[0] == '\n' then ' ' else s[0]] + ReplaceNewlines(s[1..])
  }

  /** What is left of `s` once its leading run of non-whitespace is removed (`\S*`). */
  function DropNonSpace(s: string): (r: string)
    ensures |r| <= |s| && r == s[|s| - |r|..]
    ensures r == [] || IsSpace(r[0])
    ensures forall i :: 0 <= i < |s| - |r| ==> !IsSpace(s[i])
  {
    if s == [] || IsSpace(s[0]) then s else DropNonSpace(s[1..])
  }

  /** `re.sub(r"'\S*", '', s)`: each apostrophe is deleted together with the
      non-whitespace that follows it; the scan resumes after the deleted run. */
  function StripApostrophes(s: string): (r: string)
    ensures '\'' !in r
    decreases |s|
  {
    if s == [] then []
    else if s[0] == '\'' then StripApostrophes(DropNonSpace(s[1..]))
    else [s[0]] + StripApostrophes(s[1..])
  }

  /** Stripping apostrophes only deletes characters: the rest keep their order. */
  lemma {:induction false} StripApostrophesSubseq(s: string)
    ensures IsSubseq(StripApostrophes(s), s)
    decreases |s|
  {
    if s == [] {
    } else if s[0] == '\'' {
      var t := DropNonSpace(s[1..]);
      StripApostrophesSubseq(t);
      DropSuffixSubseq(StripApostrophes(t), s, |s| - |t|);
    } else {
      StripApostrophesSubseq(s[1..]);
      assert StripApostrophes(s) == [s[0]] + StripApostrophes(s[1..]);
      assert ([s[0]] + StripApostrophes(s[1..]))[1..] == StripApostrophes(s[1..]);
    }
  }

  lemma {:induction false} DropSuffixSubseq<T>(a: seq<T>, s: seq<T>, k: nat)
    requires k <= |s| && IsSubseq(a, s[k..])
    ensures IsSubseq(a, s)
    decreases k
  {
    if k > 0 {
      assert [s[k - 1]] + s[k..] == s[k - 1..];
      SubseqConsRight(a, s[k - 1], s[k..]);
      DropSuffixSubseq(a, s, k - 1);
    }
  }

  // ---------------------------------------------------------------------------
  // Whitespace-separated fields
  // ---------------------------------------------------------------------------

  /** The whitespace characters of `s`, in order. */
  function Spaces(s: string): (r: string)
  {
    if s == [] then [] else (if IsSpace(s[0]) then [s[0]] else []) + Spaces(s[1..])
  }

  /** `s` cut at every whitespace character; empty fields are kept, so there is one
      more field than whitespace characters. */
  function Fields(s: string): (r: seq<string>)
    ensures |r| == |Spaces(s)| + 1
  {
    if s == [] then [""]
    else if IsSpace(s[0]) then [""] + Fields(s[1..])
    else
      var rest := Fields(s[1..]);
      [[s[0]] + rest[0]] + rest[1..]
  }

  /** The text after the last whitespace character of `s` (all of `s` when it has none). */
  function LastField(s: string): string {
    Fields(s)[|Fields(s)| - 1]
  }

  /** The fields put back together, each whitespace character between its two fields. */
  function Rejoin(fields: seq<string>, spaces: string): string
    requires |fields| == |spaces| + 1
  {
    if spaces == [] then fields[0] else fields[0] + [spaces[0]] + Rejoin(fields[1..], spaces[1..])
  }

  lemma {:induction false} RejoinCons(c: char, fields: seq<string>, spaces: string)
    requires |fields| == |spaces| + 1
    ensures Rejoin([[c] + fields[0]] + fields[1..], spaces) == [c] + Rejoin(fields, spaces)
  {
    var fs := [[c] + fields[0]] + fields[1..];
    if spaces != [] {
      assert fs[1..] == fields[1..];
    }
  }

  /** Cutting at whitespace loses nothing: the fields and the whitespace give `s` back. */
  lemma {:induction false} FieldsRejoin(s: string)
    ensures Rejoin(Fields(s), Spaces(s)) == s
  {
    if s != [] {
      FieldsRejoin(s[1..]);
      if IsSpace(s[0]) {
        assert ([""] + Fields(s[1..]))[1..] == Fields(s[1..]);
        assert [s[0]] + s[1..] == s;
      } else {
        assert Spaces(s) == Spaces(s[1..]);
        RejoinCons(s[0], Fields(s[1..]), Spaces(s[1..]));
        assert [s[0]] + s[1..] == s;
      }
    }
  }

  /** A field up to, not including, its first apostrophe. */
  function Truncate(w: string): (r: string)
    ensures |r| <= |w| && r == w[..|r|]
    ensures '\'' !in r
    ensures |r| < |w| ==> w[|r|] == '\''
  {
    if w == [] || w[0] == '\'' then [] else [w[0]] + Truncate(w[1..])
  }

  function TruncateAll(fields: seq<string>): (r: seq<string>)
    ensures |r| == |fields|
  {
    if fields == [] then [] else [Truncate(fields[0])] + TruncateAll(fields[1..])
  }

  /** Skipping a run of non-whitespace changes neither the later fields nor the whitespace. */
  lemma {:induction false} DropNonSpaceFields(s: string)
    ensures Fields(DropNonSpace(s))[0] == ""
    ensures Fields(DropNonSpace(s))[1..] == Fields(s)[1..]
    ensures Spaces(DropNonSpace(s)) == Spaces(s)
  {
    if s != [] && !IsSpace(s[0]) {
      DropNonSpaceFields(s[1..]);
      FieldsAtPlainHead(s);
      assert DropNonSpace(s) == DropNonSpace(s[1..]);
      assert Spaces(s) == Spaces(s[1..]);
    } else if s != [] {
      FieldsAtHeadSpace(s);
    }
  }

  /**
   * What `re.sub(r"'\S*", '', s)` does, field by field: every whitespace-separated
   * field is cut at its first apostrophe, and all whitespace stays where it was.
   */
  lemma {:induction false} StripApostrophesFields(s: string)
    ensures StripApostrophes(s) == Rejoin(TruncateAll(Fields(s)), Spaces(s))
    decreases |s|
  {
    if s == [] {
    } else if s[0] == '\'' {
      StripApostrophesFields(DropNonSpace(s[1..]));
      ApostropheField(s);
    } else if IsSpace(s[0]) {
      StripApostrophesFields(s[1..]);
      SpaceField(s);
    } else {
      StripApostrophesFields(s[1..]);
      PlainCharField(s);
    }
  }

  /** An apostrophe opens a field: that field is cut to nothing, and the scan goes on
      at the whitespace after it. */
  lemma ApostropheField(s: string)
    requires s != [] && s[0] == '\''
    requires var t := DropNonSpace(s[1..]);
             StripApostrophes(t) == Rejoin(TruncateAll(Fields(t)), Spaces(t))
    ensures StripApostrophes(s) == Rejoin(TruncateAll(Fields(s)), Spaces(s))
  {
    ApostropheFieldSkipped(s);
    assert StripApostrophes(s) == StripApostrophes(DropNonSpace(s[1..]));
  }

  lemma ApostropheFieldSkipped(s: string)
    requires s != [] && s[0] == '\''
    ensures var t := DropNonSpace(s[1..]);
            TruncateAll(Fields(s)) == TruncateAll(Fields(t)) && Spaces(s) == Spaces(t)
  {
    var t := DropNonSpace(s[1..]);
    DropNonSpaceFields(s[1..]);
    var f1 := Fields(s[1..]);
    var fs := [[s[0]] + f1[0]] + f1[1..];
    assert Fields(s) == fs;
    assert Truncate(fs[0]) == "";
    assert fs[1..] == f1[1..];
    var ft := Fields(t);
    assert TruncateAll(ft) == [Truncate(ft[0])] + TruncateAll(ft[1..]);
  }

  lemma SpaceField(s: string)
    requires s != [] && IsSpace(s[0])
    requires StripApostrophes(s[1..]) == Rejoin(TruncateAll(Fields(s[1..])), Spaces(s[1..]))
    ensures StripApostrophes(s) == Rejoin(TruncateAll(Fields(s)), Spaces(s))
  {
    FieldsAtHeadSpace(s);
    TruncateAllCons("", Fields(s[1..]));
    RejoinAtSpace(TruncateAll(Fields(s[1..])), s[0], Spaces(s[1..]));
    StripApostrophesKeepsHead(s);
  }

  lemma TruncateAllCons(f: string, fields: seq<string>)
    ensures TruncateAll([f] + fields) == [Truncate(f)] + TruncateAll(fields)
  {
    assert ([f] + fields)[1..] == fields;
  }

  lemma RejoinAtSpace(fields: seq<string>, c: char, spaces: string)
    requires |fields| == |spaces| + 1
    ensures Rejoin([""] + fields, [c] + spaces) == [c] + Rejoin(fields, spaces)
  {
    assert ([""] + fields)[1..] == fields;
    assert ([c] + spaces)[1..] == spaces;
  }

  lemma StripApostrophesKeepsHead(s: string)
    requires s != [] && s[0] != '\''
    ensures StripApostrophes(s) == [s[0]] + StripApostrophes(s[1..])
  {
  }

  /** A leading whitespace character closes an empty first field. */
  lemma FieldsAtHeadSpace(s: string)
    requires s != [] && IsSpace(s[0])
    ensures Fields(s) == [""] + Fields(s[1..])
    ensures Spaces(s) == [s[0]] + Spaces(s[1..])
  {
  }

  lemma PlainCharField(s: string)
    requires s != [] && s[0] != '\'' && !IsSpace(s[0])
    requires StripApostrophes(s[1..]) == Rejoin(TruncateAll(Fields(s[1..])), Spaces(s[1..]))
    ensures StripApostrophes(s) == Rejoin(TruncateAll(Fields(s)), Spaces(s))
  {
    var f1 := Fields(s[1..]);
    var t1 := TruncateAll(f1);
    assert Spaces(s) == Spaces(s[1..]);
    assert TruncateAll(Fields(s)) == [[s[0]] + t1[0]] + t1[1..] by {
      assert ([[s[0]] + f1[0]] + f1[1..])[1..] == f1[1..];
    }
    RejoinCons(s[0], t1, Spaces(s[1..]));
  }

  /** Text without an apostrophe passes through unchanged. */
  lemma {:induction false} StripApostrophesNone(s: string)
    requires '\'' !in s
    ensures StripApostrophes(s) == s
    decreases |s|
  {
    if s != [] {
      assert s[0] != '\'' && '\'' !in s[1..];
      StripApostrophesNone(s[1..]);
      assert [s[0]] + s[1..] == s;
    }
  }

  /** Length of the longest prefix of `s` without an ASCII letter (`[^a-zA-Z]*`). */
  function LeadingNonLetters(s: string): (n: nat)
    ensures n <= |s|
    ensures forall i :: 0 <= i < n ==> !IsLetter(s[i])
    ensures n < |s| ==> IsLetter(s[n])
  {
    if s == [] || IsLetter(s[0]) then 0 else 1 + LeadingNonLetters(s[1..])
  }

  /** Index of the last whitespace character of `s`, if any. */
  function LastSpace(s: string): (k: Option<nat>)
    ensures k.Some? ==> k.value < |s| && IsSpace(s[k.value])
    ensures k.Some? ==> forall i :: k.value < i < |s| ==> !IsSpace(s[i])
    ensures k.None? ==> forall i :: 0 <= i < |s| ==> !IsSpace(s[i])
  {
    if s == [] then None
    else if IsSpace(s[|s| - 1]) then Some(|s| - 1)
    else LastSpace(s[..|s| - 1])
  }

  /** No whitespace comes before the first ASCII letter of `s` (or at all, if it has none). */
  predicate NoSpaceBeforeLetter(s: string) {
    if s == [] then true
    else if IsLetter(s[0]) then true
    else !IsSpace(s[0]) && NoSpaceBeforeLetter(s[1..])
  }

  lemma {:induction false} NoSpaceBeforeLetterIntro(s: string, p: nat)
    requires p <= |s|
    requires forall i :: 0 <= i < p ==> !IsLetter(s[i]) && !IsSpace(s[i])
    requires p == |s| || IsLetter(s[p])
    ensures NoSpaceBeforeLetter(s)
  {
    if p == 0 {
      if s != [] {
        assert IsLetter(s[0]);
      }
    } else {
      NoSpaceBeforeLetterIntro(s[1..], p - 1);
    }
  }

  /**
   * Length of the match of `\s[^a-zA-Z]*\s` at the start of `s`, if the pattern
   * matches there. The star is greedy over the letterless run, then gives back
   * characters until the closing `\s` matches: the match ends at the last
   * whitespace before the next letter.
   */
  function MatchLength(s: string): (m: Option<nat>)
    ensures s == [] || !IsSpace(s[0]) ==> m.None?
    ensures m.Some? ==> 2 <= m.value <= |s| && IsSpace(s[0]) && IsSpace(s[m.value - 1])
    ensures m.Some? ==> forall i :: 0 <= i < m.value ==> !IsLetter(s[i])
    ensures m.Some? ==> NoSpaceBeforeLetter(s[m.value..])
    ensures m.None? && s != [] && IsSpace(s[0]) ==> NoSpaceBeforeLetter(s[1..])
  {
    if s == [] || !IsSpace(s[0]) then None
    else
      var n := LeadingNonLetters(s[1..]);
      match LastSpace(s[1..1 + n])
      case None =>
        RunWithoutSpace(s);
        None
      case Some(k) =>
        RunEndsAtSpace(s, k);
        Some(k + 2)
  }

  /** No whitespace in the letterless run: the pattern fails, and no space precedes the next letter. */
  lemma RunWithoutSpace(s: string)
    requires s != [] && LastSpace(s[1..1 + LeadingNonLetters(s[1..])]).None?
    ensures NoSpaceBeforeLetter(s[1..])
  {
    var t := s[1..];
    var n := LeadingNonLetters(t);
    var run := s[1..1 + n];
    assert forall i :: 0 <= i < n ==> t[i] == run[i] by {
      forall i | 0 <= i < n ensures t[i] == run[i] {
        assert t[i] == s[1 + i];
      }
    }
    NoSpaceBeforeLetterIntro(t, n);
  }

  /** The match ends at the last whitespace `k` of the letterless run. */
  lemma RunEndsAtSpace(s: string, k: nat)
    requires s != [] && IsSpace(s[0]) && LastSpace(s[1..1 + LeadingNonLetters(s[1..])]) == Some(k)
    ensures k + 2 <= |s| && IsSpace(s[k + 1])
    ensures forall i :: 0 <= i < k + 2 ==> !IsLetter(s[i])
    ensures NoSpaceBeforeLetter(s[k + 2..])
  {
    var n := LeadingNonLetters(s[1..]);
    var run := s[1..1 + n];
    assert run[k] == s[k + 1];
    assert forall i :: 1 <= i < k + 2 ==> s[i] == s[1..][i - 1];
    var t := s[k + 2..];
    assert forall i :: 0 <= i < n - k - 1 ==> t[i] == run[k + 1 + i] by {
      forall i | 0 <= i < n - k - 1 ensures t[i] == run[k + 1 + i] {
        assert t[i] == s[k + 2 + i];
      }
    }
    NoSpaceBeforeLetterIntro(t, n - k - 1);
  }

  /** `re.sub(r'\s[^a-zA-Z]*\s', ' ', s)`: scanning left to right, each match is
      replaced by one space and the scan resumes after it. */
  function CollapseLetterless(s: string): (r: string)
    ensures forall i :: 0 <= i < |r| ==> r[i] == ' ' || r[i] in s
    decreases |s|
  {
    if s == [] then []
    else match MatchLength(s)
      case Some(m) => " " + CollapseLetterless(s[m..])
      case None => [s[0]] + CollapseLetterless(s[1..])
  }

  /** `cleanText`: the substitution chain, then `split(" ")`. The NFKD normalisation
      that precedes it is not part of this model (the text is taken as normalised). */
  function CleanText(clearText: string): (tokens: seq<string>)
  {
    var s := CollapseLetterless(StripApostrophes(ReplaceNewlines(clearText)));
    Split(s, ' ')
  }

  // ---------------------------------------------------------------------------
  // What the collapse guarantees
  // ---------------------------------------------------------------------------

  /** No two whitespace characters of `s` are separated by letterless text only. */
  predicate GapFree(s: string) {
    if s == [] then true
    else (IsSpace(s[0]) ==> NoSpaceBeforeLetter(s[1..])) && GapFree(s[1..])
  }

  /** Keeps the ASCII letters of `s`, in order. */
  function Letters(s: string): (r: string)
    ensures forall i :: 0 <= i < |r| ==> IsLetter(r[i])
  {
    if s == [] then [] else (if IsLetter(s[0]) then [s[0]] else []) + Letters(s[1..])
  }

  lemma {:induction false} LettersSkip(s: string, m: nat)
    requires m <= |s| && forall i :: 0 <= i < m ==> !IsLetter(s[i])
    ensures Letters(s) == Letters(s[m..])
  {
    if m > 0 {
      LettersSkip(s[1..], m - 1);
      assert s[1..][m - 1..] == s[m..];
    }
  }

  /** The collapse never removes or reorders a letter: it only rewrites letterless text. */
  lemma {:induction false} CollapseKeepsLetters(s: string)
    ensures Letters(CollapseLetterless(s)) == Letters(s)
    decreases |s|
  {
    if s != [] {
      match MatchLength(s)
      case Some(m) =>
        CollapseKeepsLetters(s[m..]);
        LettersSkip(s, m);
        assert (" " + CollapseLetterless(s[m..]))[1..] == CollapseLetterless(s[m..]);
      case None =>
        CollapseKeepsLetters(s[1..]);
        assert ([s[0]] + CollapseLetterless(s[1..]))[1..] == CollapseLetterless(s[1..]);
    }
  }

  lemma {:induction false} CollapseKeepsLeadingLetterRun(s: string)
    requires NoSpaceBeforeLetter(s)
    ensures NoSpaceBeforeLetter(CollapseLetterless(s))
    decreases |s|
  {
    if s != [] {
      assert MatchLength(s).None?;
      var r := CollapseLetterless(s);
      assert r == [s[0]] + CollapseLetterless(s[1..]);
      assert r[1..] == CollapseLetterless(s[1..]);
      if !IsLetter(s[0]) {
        CollapseKeepsLeadingLetterRun(s[1..]);
      }
    }
  }

  /** Between two whitespace characters of the collapsed text there is always a letter. */
  lemma {:induction false} CollapseGapFree(s: string)
    ensures GapFree(CollapseLetterless(s))
    decreases |s|
  {
    if s != [] {
      match MatchLength(s)
      case Some(m) =>
        CollapseGapFree(s[m..]);
        CollapseKeepsLeadingLetterRun(s[m..]);
        assert (" " + CollapseLetterless(s[m..]))[1..] == CollapseLetterless(s[m..]);
      case None =>
        CollapseGapFree(s[1..]);
        if IsSpace(s[0]) {
          CollapseKeepsLeadingLetterRun(s[1..]);
        }
        assert ([s[0]] + CollapseLetterless(s[1..]))[1..] == CollapseLetterless(s[1..]);
    }
  }

  /** The quantified reading of `GapFree`: any two whitespace characters have a letter between them. */
  lemma {:induction false} GapFreeMeaning(s: string, i: nat, j: nat)
    requires GapFree(s) && i < j < |s| && IsSpace(s[i]) && IsSpace(s[j])
    ensures exists k :: i < k < j && IsLetter(s[k])
  {
    if i > 0 {
      GapFreeMeaning(s[1..], i - 1, j - 1);
      var k :| i - 1 < k < j - 1 && IsLetter(s[1..][k]);
      assert IsLetter(s[k + 1]);
    } else {
      LetterBeforeSpace(s[1..], j - 1);
      var k :| 0 <= k < j - 1 && IsLetter(s[1..][k]);
      assert IsLetter(s[k + 1]);
    }
  }

  lemma {:induction false} LetterBeforeSpace(s: string, j: nat)
    requires NoSpaceBeforeLetter(s) && j < |s| && IsSpace(s[j])
    ensures exists k :: 0 <= k < j && IsLetter(s[k])
  {
    if IsLetter(s[0]) {
      assert !IsSpace(s[0]);
    } else {
      LetterBeforeSpace(s[1..], j - 1);
      var k :| 0 <= k < j - 1 && IsLetter(s[1..][k]);
      assert IsLetter(s[k + 1]);
    }
  }

  /** Text that is already gap-free has nothing left for the pattern to match. */
  lemma {:induction false} CollapseFixesGapFree(s: string)
    requires GapFree(s)
    ensures CollapseLetterless(s) == s
    decreases |s|
  {
    if s != [] {
      if MatchLength(s).Some? {
        LetterBeforeSpace(s[1..], MatchLength(s).value - 2);
        assert false;
      }
      CollapseFixesGapFree(s[1..]);
      assert [s[0]] + s[1..] == s;
    }
  }

  /** Applying the substitution a second time changes nothing. */
  lemma CollapseIdempotent(s: string)
    ensures CollapseLetterless(CollapseLetterless(s)) == CollapseLetterless(s)
  {
    CollapseGapFree(s);
    CollapseFixesGapFree(CollapseLetterless(s));
  }

  /** The fields that contain an ASCII letter, in order. */
  function LetterFields(fields: seq<string>): seq<string> {
    if fields == [] then []
    else (if HasLetter(fields[0]) then [fields[0]] else []) + LetterFields(fields[1..])
  }

  lemma {:induction false} LetterFieldsAppend(a: seq<string>, b: seq<string>)
    ensures LetterFields(a + b) == LetterFields(a) + LetterFields(b)
  {
    if a != [] {
      LetterFieldsAppend(a[1..], b);
      var ab := a + b;
      assert ab != [] && ab[0] == a[0] && ab[1..] == a[1..] + b;
    } else {
      assert a + b == b;
    }
  }

  /** Cutting at one whitespace character splits the fields there. */
  lemma {:induction false} FieldsAtSpace(a: string, w: char, b: string)
    requires IsSpace(w)
    ensures Fields(a + [w] + b) == Fields(a) + Fields(b)
  {
    if a == [] {
      assert a + [w] + b == [w] + b;
      FieldsConsSpace(w, b);
    } else {
      var c, a' := a[0], a[1..];
      assert a == [c] + a';
      assert a + [w] + b == [c] + (a' + [w] + b);
      FieldsAtSpace(a', w, b);
      if IsSpace(c) {
        SpaceJoinsNothing(c, a', a' + [w] + b, Fields(b));
      } else {
        PlainJoinsFirst(c, a', a' + [w] + b, Fields(b));
      }
    }
  }

  lemma SpaceJoinsNothing(c: char, x: string, y: string, fb: seq<string>)
    requires IsSpace(c) && Fields(y) == Fields(x) + fb
    ensures Fields([c] + y) == Fields([c] + x) + fb
  {
    FieldsConsSpace(c, y);
    FieldsConsSpace(c, x);
    ConsAppend("", Fields(x), fb);
  }

  lemma PlainJoinsFirst(c: char, x: string, y: string, fb: seq<string>)
    requires !IsSpace(c) && Fields(y) == Fields(x) + fb
    ensures Fields([c] + y) == Fields([c] + x) + fb
  {
    FieldsConsPlain(c, y);
    FieldsConsPlain(c, x);
    ExtendFirst([c], Fields(x), fb);
  }

  lemma FieldsConsSpace(c: char, rest: string)
    requires IsSpace(c)
    ensures Fields([c] + rest) == [""] + Fields(rest)
  {
    var t := [c] + rest;
    assert t != [] && t[0] == c && t[1..] == rest;
  }

  lemma FieldsConsPlain(c: char, rest: string)
    requires !IsSpace(c)
    ensures Fields([c] + rest) == [[c] + Fields(rest)[0]] + Fields(rest)[1..]
  {
    var t := [c] + rest;
    assert t != [] && t[0] == c && t[1..] == rest;
  }

  /** A leading non-whitespace character starts the first field. */
  lemma FieldsAtPlainHead(s: string)
    requires s != [] && !IsSpace(s[0])
    ensures Fields(s) == [[s[0]] + Fields(s[1..])[0]] + Fields(s[1..])[1..]
  {
  }

  /** Letterless text has no field with a letter. */
  lemma {:induction false} LetterlessFields(a: string)
    requires forall i :: 0 <= i < |a| ==> !IsLetter(a[i])
    ensures LetterFields(Fields(a)) == []
  {
    if a != [] {
      LetterlessFields(a[1..]);
      var f1 := Fields(a[1..]);
      if IsSpace(a[0]) {
        FieldsAtHeadSpace(a);
        assert ([""] + f1)[1..] == f1;
      } else {
        FieldsAtPlainHead(a);
        var h := [a[0]] + f1[0];
        LetterlessHead(f1);
        assert !HasLetter(h) by {
          forall i | 0 <= i < |h| ensures !IsLetter(h[i]) {
            if i > 0 {
              assert h[i] == f1[0][i - 1];
            }
          }
        }
        assert ([h] + f1[1..])[1..] == f1[1..];
      }
    }
  }

  lemma LetterlessHead(fields: seq<string>)
    requires fields != [] && LetterFields(fields) == []
    ensures !HasLetter(fields[0]) && LetterFields(fields[1..]) == []
  {
  }

  /** A field list in which `xs` keeps the fields of `ys` that matter: all the fields
      with letters, and some of the others, in order. */
  predicate KeepsWords(xs: seq<string>, ys: seq<string>) {
    IsSubseq(xs, ys) && LetterFields(xs) == LetterFields(ys)
  }

  lemma KeepsWordsCons(h: string, xs: seq<string>, ys: seq<string>)
    requires KeepsWords(xs, ys)
    ensures KeepsWords([h] + xs, [h] + ys)
  {
    assert ([h] + xs)[1..] == xs;
    assert ([h] + ys)[1..] == ys;
  }

  lemma KeepsWordsTail(xs: seq<string>, ys: seq<string>)
    requires xs != [] && ys != [] && xs[0] == ys[0] && KeepsWords(xs, ys)
    ensures KeepsWords(xs[1..], ys[1..])
  {
    var h := if HasLetter(xs[0]) then [xs[0]] else [];
    assert LetterFields(xs) == h + LetterFields(xs[1..]);
    assert LetterFields(ys) == h + LetterFields(ys[1..]);
    assert LetterFields(xs)[|h|..] == LetterFields(xs[1..]);
    assert LetterFields(ys)[|h|..] == LetterFields(ys[1..]);
  }

  /** Letterless fields put in front of the original change nothing that is kept. */
  lemma KeepsWordsSkip(xs: seq<string>, u: seq<string>, ys: seq<string>)
    requires KeepsWords(xs, ys) && LetterFields(u) == []
    ensures KeepsWords(xs, u + ys)
  {
    assert (u + ys)[|u|..] == ys;
    DropSuffixSubseq(xs, u + ys, |u|);
    LetterFieldsAppend(u, ys);
    assert LetterFields(u) + LetterFields(ys) == LetterFields(ys);
  }

  /**
   * The collapse only deletes whole letterless fields. Every field that contains a
   * letter survives unchanged, in its order, still separated from its neighbours, and
   * the first and the last fields are kept as they are.
   */
  lemma {:induction false} CollapseKeepsWords(s: string)
    ensures KeepsWords(Fields(CollapseLetterless(s)), Fields(s))
    ensures Fields(CollapseLetterless(s))[0] == Fields(s)[0]
    ensures LastField(CollapseLetterless(s)) == LastField(s)
    decreases |s|
  {
    CollapseKeepsLastField(s);
    if s == [] {
      SubseqRefl(Fields(s));
    } else {
      match MatchLength(s)
      case Some(m) =>
        CollapseKeepsWords(s[m..]);
        CollapseWordsAtMatch(s, m);
      case None =>
        CollapseKeepsWords(s[1..]);
        if IsSpace(s[0]) {
          CollapseWordsAtSpace(s);
        } else {
          CollapseWordsInField(s);
        }
    }
  }

  lemma CollapseWordsAtMatch(s: string, m: nat)
    requires MatchLength(s) == Some(m)
    requires KeepsWords(Fields(CollapseLetterless(s[m..])), Fields(s[m..]))
    ensures KeepsWords(Fields(CollapseLetterless(s)), Fields(s))
    ensures Fields(CollapseLetterless(s))[0] == Fields(s)[0]
  {
    var fc := Fields(CollapseLetterless(s[m..]));
    var u := MatchedFields(s, m);
    KeepsWordsSkip(fc, u, Fields(s[m..]));
    KeepsWordsCons("", fc, u + Fields(s[m..]));
    assert CollapseLetterless(s) == " " + CollapseLetterless(s[m..]);
    assert (" " + CollapseLetterless(s[m..]))[1..] == CollapseLetterless(s[m..]);
  }

  /** The fields a match spans: an empty one before its first whitespace, then the
      letterless ones inside it. */
  lemma MatchedFields(s: string, m: nat) returns (u: seq<string>)
    requires MatchLength(s) == Some(m)
    ensures Fields(s) == [""] + (u + Fields(s[m..]))
    ensures LetterFields(u) == []
  {
    var w := s[1..m - 1];
    assert s[1..] == w + [s[m - 1]] + s[m..];
    FieldsAtSpace(w, s[m - 1], s[m..]);
    assert forall i :: 0 <= i < |w| ==> !IsLetter(w[i]) by {
      forall i | 0 <= i < |w| ensures !IsLetter(w[i]) {
        assert w[i] == s[i + 1];
      }
    }
    LetterlessFields(w);
    u := Fields(w);
  }

  lemma CollapseWordsAtSpace(s: string)
    requires s != [] && IsSpace(s[0]) && MatchLength(s).None?
    requires KeepsWords(Fields(CollapseLetterless(s[1..])), Fields(s[1..]))
    ensures KeepsWords(Fields(CollapseLetterless(s)), Fields(s))
    ensures Fields(CollapseLetterless(s))[0] == Fields(s)[0]
  {
    var c1 := CollapseLetterless(s[1..]);
    KeepsWordsCons("", Fields(c1), Fields(s[1..]));
    assert CollapseLetterless(s) == [s[0]] + c1;
    assert ([s[0]] + c1)[1..] == c1;
  }

  lemma CollapseWordsInField(s: string)
    requires s != [] && !IsSpace(s[0]) && MatchLength(s).None?
    requires KeepsWords(Fields(CollapseLetterless(s[1..])), Fields(s[1..]))
    requires Fields(CollapseLetterless(s[1..]))[0] == Fields(s[1..])[0]
    ensures KeepsWords(Fields(CollapseLetterless(s)), Fields(s))
    ensures Fields(CollapseLetterless(s))[0] == Fields(s)[0]
  {
    var c1 := CollapseLetterless(s[1..]);
    var fc, f1 := Fields(c1), Fields(s[1..]);
    KeepsWordsTail(fc, f1);
    var h := [s[0]] + f1[0];
    KeepsWordsCons(h, fc[1..], f1[1..]);
    assert CollapseLetterless(s) == [s[0]] + c1;
    assert ([s[0]] + c1)[1..] == c1;
    assert Fields(CollapseLetterless(s)) == [h] + fc[1..];
  }

  /** The pattern never consumes the text after the last whitespace: the last field
      survives the collapse unchanged, and it is the only field exactly when it was
      the only field before. */
  lemma {:induction false} CollapseKeepsLastField(s: string)
    ensures |Fields(CollapseLetterless(s))| == 1 <==> |Fields(s)| == 1
    ensures LastField(CollapseLetterless(s)) == LastField(s)
    decreases |s|
  {
    if s != [] {
      match MatchLength(s)
      case Some(m) =>
        CollapseKeepsLastField(s[m..]);
        LastFieldAtMatch(s, m);
      case None =>
        CollapseKeepsLastField(s[1..]);
        LastFieldAtChar(s);
    }
  }

  lemma LastOfAppend<T>(a: seq<T>, b: seq<T>)
    requires b != []
    ensures a + b != [] && (a + b)[|a + b| - 1] == b[|b| - 1]
  {
  }

  lemma LastFieldAtMatch(s: string, m: nat)
    requires MatchLength(s) == Some(m)
    requires LastField(CollapseLetterless(s[m..])) == LastField(s[m..])
    ensures |Fields(CollapseLetterless(s))| > 1 && |Fields(s)| > 1
    ensures LastField(CollapseLetterless(s)) == LastField(s)
  {
    var u := MatchedFields(s, m);
    LastFieldBehind(s, u, s[m..]);
    LastFieldBehindSpace(CollapseLetterless(s), CollapseLetterless(s[m..]));
  }

  /** Fields in front of those of `t` leave the last field as it is. */
  lemma LastFieldBehind(s: string, u: seq<string>, t: string)
    requires Fields(s) == [""] + (u + Fields(t))
    ensures |Fields(s)| > 1 && LastField(s) == LastField(t)
  {
    LastOfAppend(u, Fields(t));
    LastOfAppend([""], u + Fields(t));
  }

  lemma LastFieldBehindSpace(r: string, t: string)
    requires r == " " + t
    ensures |Fields(r)| > 1 && LastField(r) == LastField(t)
  {
    FieldsLastCons(' ', t);
  }

  lemma LastFieldAtChar(s: string)
    requires s != [] && MatchLength(s).None?
    requires |Fields(CollapseLetterless(s[1..]))| == 1 <==> |Fields(s[1..])| == 1
    requires LastField(CollapseLetterless(s[1..])) == LastField(s[1..])
    ensures |Fields(CollapseLetterless(s))| == 1 <==> |Fields(s)| == 1
    ensures LastField(CollapseLetterless(s)) == LastField(s)
  {
    var c1 := CollapseLetterless(s[1..]);
    assert CollapseLetterless(s) == [s[0]] + c1;
    FieldsLastCons(s[0], c1);
    FieldsLastCons(s[0], s[1..]);
    assert [s[0]] + s[1..] == s;
    if |Fields(s[1..])| == 1 && !IsSpace(s[0]) {
      assert Fields(c1)[0] == LastField(c1);
    }
  }

  /** One more character in front changes the last field only when there is one field. */
  lemma FieldsLastCons(x: char, t: string)
    ensures |Fields([x] + t)| == 1 <==> |Fields(t)| == 1 && !IsSpace(x)
    ensures |Fields(t)| > 1 || IsSpace(x) ==> LastField([x] + t) == LastField(t)
    ensures |Fields(t)| == 1 && !IsSpace(x) ==> LastField([x] + t) == [x] + Fields(t)[0]
  {
    assert ([x] + t)[1..] == t;
  }

  /** Cutting at spaces only: the last piece ends with the last whitespace field of
      the whole text, and there is more than one field when there is more than one piece. */
  lemma {:induction false} SplitLastField(c: string)
    ensures |Split(c, ' ')| > 1 ==> |Fields(c)| > 1
    ensures LastField(Split(c, ' ')[|Split(c, ' ')| - 1]) == LastField(c)
  {
    if c != [] {
      SplitLastField(c[1..]);
      if c[0] == ' ' {
        SplitLastFieldAtSpace(c[1..]);
        assert " " + c[1..] == c;
      } else {
        SplitLastFieldInPiece(c);
      }
    }
  }

  lemma SplitLastFieldAtSpace(t: string)
    requires LastField(Split(t, ' ')[|Split(t, ' ')| - 1]) == LastField(t)
    ensures |Split(" " + t, ' ')| > 1 && |Fields(" " + t)| > 1
    ensures LastField(Split(" " + t, ' ')[|Split(" " + t, ' ')| - 1]) == LastField(" " + t)
  {
    assert (" " + t)[1..] == t;
    SplitAtSeparator(" " + t, ' ');
    LastOfAppend([""], Split(t, ' '));
    LastFieldBehindSpace(" " + t, t);
  }

  lemma SplitLastFieldInPiece(c: string)
    requires c != [] && c[0] != ' '
    requires |Split(c[1..], ' ')| > 1 ==> |Fields(c[1..])| > 1
    requires LastField(Split(c[1..], ' ')[|Split(c[1..], ' ')| - 1]) == LastField(c[1..])
    ensures |Split(c, ' ')| > 1 ==> |Fields(c)| > 1
    ensures LastField(Split(c, ' ')[|Split(c, ' ')| - 1]) == LastField(c)
  {
    var rest := Split(c[1..], ' ');
    SplitHead(c, rest, ' ');
    if |rest| == 1 {
      JoinSplit(c[1..], ' ');
      LastPieceWhole(c, rest);
    } else {
      LastPieceBehind(Split(c, ' '), [[c[0]] + rest[0]], rest);
      LastFieldBehindChar(c);
    }
  }

  lemma LastFieldBehindChar(c: string)
    requires c != [] && |Fields(c[1..])| > 1
    ensures |Fields(c)| > 1 && LastField(c) == LastField(c[1..])
  {
    FieldsLastCons(c[0], c[1..]);
    assert [c[0]] + c[1..] == c;
  }

  lemma LastPieceWhole(c: string, rest: seq<string>)
    requires c != [] && |rest| == 1 && Join(rest, ' ') == c[1..]
    requires Split(c, ' ') == [[c[0]] + rest[0]] + rest[1..]
    ensures Split(c, ' ') == [c]
  {
    assert rest[0] == c[1..];
    var first := [c[0]] + rest[0];
    assert first == c;
    assert rest[1..] == [];
    assert [first] + rest[1..] == [c];
  }

  lemma LastPieceBehind(pieces: seq<string>, front: seq<string>, rest: seq<string>)
    requires front != [] && |rest| > 1 && pieces == front + rest[1..]
    ensures |pieces| > 1 && pieces[|pieces| - 1] == rest[|rest| - 1]
  {
    LastOfAppend(front, rest[1..]);
  }

  lemma {:induction false} FirstPieceHasLetter(s: string)
    requires NoSpaceBeforeLetter(s) && |Split(s, ' ')| >= 2
    ensures HasLetter(Split(s, ' ')[0])
  {
    assert s != [];
    if IsLetter(s[0]) {
      assert Split(s, ' ')[0][0] == s[0];
    } else {
      FirstPieceHasLetter(s[1..]);
      var k :| 0 <= k < |Split(s[1..], ' ')[0]| && IsLetter(Split(s[1..], ' ')[0][k]);
      assert Split(s, ' ')[0][k + 1] == Split(s[1..], ' ')[0][k];
    }
  }

  lemma {:induction false} InteriorPiecesHaveLetters(s: string)
    requires GapFree(s)
    ensures forall i :: 0 < i < |Split(s, ' ')| - 1 ==> HasLetter(Split(s, ' ')[i])
  {
    if s != [] {
      InteriorPiecesHaveLetters(s[1..]);
      var rest := Split(s[1..], ' ');
      if s[0] == ' ' {
        if |rest| >= 2 {
          FirstPieceHasLetter(s[1..]);
        }
        assert forall i :: 0 < i < |rest| + 1 ==> Split(s, ' ')[i] == rest[i - 1];
      } else {
        assert forall i :: 0 < i < |rest| ==> Split(s, ' ')[i] == rest[i];
      }
    }
  }

  /**
   * What `cleanText` promises about its tokens: there is at least one (`"".split(" ")`
   * is `[""]`); none holds a newline, an apostrophe or a space; and every token
   * strictly between the first and the last contains an ASCII letter (only the
   * leading and trailing letterless words escape the collapse). The last token ends
   * with the text's last whitespace field exactly as it was before the collapse.
   * Where two words with letters are split apart is stated by `CleanTextSeparates`.
   */
  lemma CleanTextTokens(clearText: string)
    ensures |CleanText(clearText)| >= 1
    ensures forall i :: 0 <= i < |CleanText(clearText)| ==>
      var t := CleanText(clearText)[i];
      '\n' !in t && '\'' !in t && ' ' !in t
    ensures forall i :: 0 < i < |CleanText(clearText)| - 1 ==> HasLetter(CleanText(clearText)[i])
    ensures LastField(CleanText(clearText)[|CleanText(clearText)| - 1]) ==
            LastField(StripApostrophes(ReplaceNewlines(clearText)))
  {
    var a := ReplaceNewlines(clearText);
    var b := StripApostrophes(a);
    var c := CollapseLetterless(b);
    var r := Split(c, ' ');
    StripApostrophesSubseq(a);
    forall i, k | 0 <= i < |r| && 0 <= k < |r[i]|
      ensures r[i][k] != '\n' && r[i][k] != '\''
    {
      SplitChars(c, ' ', i, k);
      if r[i][k] != ' ' {
        assert r[i][k] in b;
        SubseqMembers(b, a, r[i][k]);
      }
    }
    CollapseGapFree(b);
    InteriorPiecesHaveLetters(c);
    SplitLastField(c);
    CollapseKeepsLastField(b);
  }

  /** Joining the tokens back with single spaces gives the collapsed text. */
  lemma CleanTextJoin(clearText: string)
    ensures Join(CleanText(clearText), ' ') ==
            CollapseLetterless(StripApostrophes(ReplaceNewlines(clearText)))
  {
    JoinSplit(CollapseLetterless(StripApostrophes(ReplaceNewlines(clearText))), ' ');
  }

  // ---------------------------------------------------------------------------
  // Where the collapse puts its single space
  // ---------------------------------------------------------------------------

  /** The letterless run is measured up to the first letter, wherever that is. */
  lemma {:induction false} LeadingNonLettersAt(s: string, p: nat)
    requires p <= |s| && forall i :: 0 <= i < p ==> !IsLetter(s[i])
    requires p == |s| || IsLetter(s[p])
    ensures LeadingNonLetters(s) == p
  {
    if p > 0 {
      LeadingNonLettersAt(s[1..], p - 1);
    }
  }

  /** Text that ends with a letter decides the match at its start on its own. */
  lemma MatchLengthAppend(a: string, rest: string)
    requires a != [] && IsLetter(a[|a| - 1])
    ensures MatchLength(a + rest) == MatchLength(a)
  {
    var s := a + rest;
    if IsSpace(a[0]) {
      var n := LeadingNonLetters(a[1..]);
      assert n < |a| - 1;
      assert forall i :: 0 <= i <= n ==> s[1..][i] == a[1..][i];
      LeadingNonLettersAt(s[1..], n);
      assert s[1..1 + n] == a[1..1 + n];
    }
  }

  lemma CollapseAtMatch(s: string, m: nat)
    requires MatchLength(s) == Some(m)
    ensures CollapseLetterless(s) == " " + CollapseLetterless(s[m..])
  {
  }

  lemma CollapseNoMatch(s: string)
    requires s != [] && MatchLength(s).None?
    ensures CollapseLetterless(s) == [s[0]] + CollapseLetterless(s[1..])
  {
  }

  /**
   * A match never crosses a letter, so the collapse of text that ends with a letter
   * is finished before what follows begins.
   */
  lemma {:induction false} CollapseAppendAtLetter(a: string, rest: string)
    requires a != [] && IsLetter(a[|a| - 1])
    ensures CollapseLetterless(a + rest) == CollapseLetterless(a) + CollapseLetterless(rest)
    decreases |a|
  {
    MatchLengthAppend(a, rest);
    match MatchLength(a)
    case Some(m) =>
      CollapseAppendAtLetter(a[m..], rest);
      AppendAtMatch(a, rest, m);
    case None =>
      if |a| > 1 {
        CollapseAppendAtLetter(a[1..], rest);
        AppendNoMatch(a, rest);
      } else {
        AppendLastLetter(a, rest);
      }
  }

  lemma AppendAtMatch(a: string, rest: string, m: nat)
    requires MatchLength(a) == Some(m) && MatchLength(a + rest) == Some(m) && m < |a|
    requires CollapseLetterless(a[m..] + rest) == CollapseLetterless(a[m..]) + CollapseLetterless(rest)
    ensures CollapseLetterless(a + rest) == CollapseLetterless(a) + CollapseLetterless(rest)
  {
    DropAppend(a, rest, m);
    CollapseAtMatch(a, m);
    CollapseAtMatch(a + rest, m);
    PrefixStep(" ", CollapseLetterless(a), CollapseLetterless(a[m..]),
               CollapseLetterless(a + rest), CollapseLetterless(a[m..] + rest), CollapseLetterless(rest));
  }

  lemma AppendNoMatch(a: string, rest: string)
    requires |a| > 1 && MatchLength(a).None? && MatchLength(a + rest).None?
    requires CollapseLetterless(a[1..] + rest) == CollapseLetterless(a[1..]) + CollapseLetterless(rest)
    ensures CollapseLetterless(a + rest) == CollapseLetterless(a) + CollapseLetterless(rest)
  {
    DropAppend(a, rest, 1);
    CollapseNoMatch(a);
    CollapseNoMatch(a + rest);
    PrefixStep([a[0]], CollapseLetterless(a), CollapseLetterless(a[1..]),
               CollapseLetterless(a + rest), CollapseLetterless(a[1..] + rest), CollapseLetterless(rest));
  }

  lemma DropAppend<T>(a: seq<T>, rest: seq<T>, m: nat)
    requires m <= |a|
    ensures (a + rest)[m..] == a[m..] + rest
  {
  }

  lemma PrefixStep<T>(h: seq<T>, x: seq<T>, y: seq<T>, xr: seq<T>, yr: seq<T>, r: seq<T>)
    requires x == h + y && xr == h + yr && yr == y + r
    ensures xr == x + r
  {
  }

  lemma AppendLastLetter(a: string, rest: string)
    requires |a| == 1 && IsLetter(a[0])
    ensures CollapseLetterless(a + rest) == CollapseLetterless(a) + CollapseLetterless(rest)
  {
    CollapseNoMatch(a);
    CollapseNoMatch(a + rest);
    assert (a + rest)[1..] == rest;
    assert a[1..] == [];
  }

  /** Characters that are not whitespace are copied one by one. */
  lemma {:induction false} CollapseNoSpacePrefix(x: string, y: string)
    requires forall i :: 0 <= i < |x| ==> !IsSpace(x[i])
    ensures CollapseLetterless(x + y) == x + CollapseLetterless(y)
  {
    if x != [] {
      assert (x + y)[1..] == x[1..] + y;
      CollapseNoSpacePrefix(x[1..], y);
    } else {
      assert x + y == y;
    }
  }

  lemma {:induction false} CollapseKeepsNoSpace(x: string)
    requires forall i :: 0 <= i < |x| ==> !IsSpace(x[i])
    ensures CollapseLetterless(x) == x
  {
    if x != [] {
      CollapseKeepsNoSpace(x[1..]);
      CollapseNoMatch(x);
      assert [x[0]] + x[1..] == x;
    }
  }

  /**
   * Text that ends with a word holding a letter (`u` up to that letter, then `x`
   * without whitespace) is collapsed independently of what follows.
   */
  lemma CollapseAfterWord(u: string, x: string, rest: string)
    requires u != [] && IsLetter(u[|u| - 1]) && forall i :: 0 <= i < |x| ==> !IsSpace(x[i])
    ensures CollapseLetterless(u + x + rest) == CollapseLetterless(u + x) + CollapseLetterless(rest)
  {
    Assoc(u, x, rest);
    CollapseAppendAtLetter(u, x + rest);
    CollapseAppendAtLetter(u, x);
    CollapseNoSpacePrefix(x, rest);
    CollapseKeepsNoSpace(x);
    AfterWordStep(CollapseLetterless(u), x, CollapseLetterless(rest),
                  CollapseLetterless(u + x + rest), CollapseLetterless(u + x));
  }

  lemma AfterWordStep<T>(cu: seq<T>, x: seq<T>, cr: seq<T>, big: seq<T>, small: seq<T>)
    requires big == cu + (x + cr) && small == cu + x
    ensures big == small + cr
  {
  }

  /**
   * Two whitespace characters with only letterless text between them are one match:
   * the gap, and whatever letterless text up to the last whitespace before the next
   * letter, becomes a single `' '`.
   */
  lemma CollapseAtGap(w1: char, m: string, w2: char, b: string)
    requires IsSpace(w1) && IsSpace(w2) && forall i :: 0 <= i < |m| ==> !IsLetter(m[i])
    ensures exists k :: 0 <= k <= |b| && (forall i :: 0 <= i < k ==> !IsLetter(b[i])) &&
                        CollapseLetterless([w1] + m + [w2] + b) == " " + CollapseLetterless(b[k..])
  {
    var pre := [w1] + m + [w2];
    GapMatches(w1, m, w2, b);
    var len := MatchLength(pre + b).value;
    CollapseAtMatch(pre + b, len);
    LetterlessSuffix(pre, b, len);
  }

  lemma GapMatches(w1: char, m: string, w2: char, b: string)
    requires IsSpace(w1) && IsSpace(w2) && forall i :: 0 <= i < |m| ==> !IsLetter(m[i])
    ensures MatchLength([w1] + m + [w2] + b).Some?
    ensures MatchLength([w1] + m + [w2] + b).value >= |m| + 2
  {
    var s := [w1] + m + [w2] + b;
    var q := |m|;
    assert s[0] == w1 && s[q + 1] == w2;
    assert forall i :: 1 <= i <= q ==> s[i] == m[i - 1];
    GapMatchLength(s, q);
  }

  lemma LetterlessSuffix(pre: string, b: string, len: nat)
    requires |pre| <= len <= |pre| + |b| && forall i :: 0 <= i < len ==> !IsLetter((pre + b)[i])
    ensures forall i :: 0 <= i < len - |pre| ==> !IsLetter(b[i])
    ensures (pre + b)[len..] == b[len - |pre|..]
  {
    forall i | 0 <= i < len - |pre| ensures !IsLetter(b[i]) {
      assert (pre + b)[|pre| + i] == b[i];
    }
  }

  /** A whitespace, letterless text of length `q`, then another whitespace: the pattern
      matches, and the match reaches at least to that second whitespace. */
  lemma GapMatchLength(s: string, q: nat)
    requires q + 2 <= |s| && IsSpace(s[0]) && IsSpace(s[q + 1])
    requires forall i :: 1 <= i <= q ==> !IsLetter(s[i])
    ensures MatchLength(s).Some? && MatchLength(s).value >= q + 2
  {
    var t := s[1..];
    var n := LeadingNonLetters(t);
    assert n > q;
    var run := s[1..1 + n];
    assert run[q] == s[q + 1];
  }

  /**
   * Two words that hold letters and are separated in the substituted text by at least
   * two whitespace characters, with only letterless text between them, end up in
   * different tokens: the tokens are those of the text up to the end of the first word
   * (`u` up to its last letter, then `x` without whitespace), then those of the text
   * from the second word's letterless lead-in on.
   */
  lemma CleanTextSeparates(clearText: string, u: string, x: string, w1: char, m: string, w2: char, b: string)
    requires StripApostrophes(ReplaceNewlines(clearText)) == u + x + ([w1] + m + [w2] + b)
    requires u != [] && IsLetter(u[|u| - 1]) && forall i :: 0 <= i < |x| ==> !IsSpace(x[i])
    requires IsSpace(w1) && IsSpace(w2) && forall i :: 0 <= i < |m| ==> !IsLetter(m[i])
    ensures exists k :: 0 <= k <= |b| && (forall i :: 0 <= i < k ==> !IsLetter(b[i])) &&
                        CleanText(clearText) ==
                        Split(CollapseLetterless(u + x), ' ') + Split(CollapseLetterless(b[k..]), ' ')
  {
    var gap := [w1] + m + [w2] + b;
    CollapseAfterWord(u, x, gap);
    CollapseAtGap(w1, m, w2, b);
    var k :| 0 <= k <= |b| && (forall i :: 0 <= i < k ==> !IsLetter(b[i])) &&
             CollapseLetterless(gap) == " " + CollapseLetterless(b[k..]);
    var ca, cb := CollapseLetterless(u + x), CollapseLetterless(b[k..]);
    SpaceBetween(ca, cb, CollapseLetterless(u + x + gap), CollapseLetterless(gap));
    SplitConcat(ca, cb, ' ');
  }

  lemma SpaceBetween(ca: string, cb: string, whole: string, cg: string)
    requires whole == ca + cg && cg == " " + cb
    ensures whole == ca + [' '] + cb
  {
  }

  /** A Windows line ending between two words: `"a\r\nb"` gives the tokens `a` and `b`. */
  lemma CleanTextCarriageReturn()
    ensures CleanText("a\r\nb") == ["a", "b"]
  {
    CarriageReturnSubstituted();
    CleanTextSeparates("a\r\nb", "a", "", '\r', "", ' ', "b");
    var k :| 0 <= k <= |"b"| && (forall i :: 0 <= i < k ==> !IsLetter("b"[i])) &&
             CleanText("a\r\nb") ==
             Split(CollapseLetterless("a" + ""), ' ') + Split(CollapseLetterless("b"[k..]), ' ');
    LetterFirst("b", k);
    SingleWordTokens();
  }

  /** The substitution turns `"a\r\nb"` into `"a\r b"`, written as word, gap and word. */
  lemma CarriageReturnSubstituted()
    ensures StripApostrophes(ReplaceNewlines("a\r\nb")) == "a" + "" + (['\r'] + "" + [' '] + "b")
  {
    var sub := "a\r b";
    assert ReplaceNewlines("a\r\nb") == sub;
    StripApostrophesNone(sub);
  }

  lemma LetterFirst(b: string, k: nat)
    requires b != [] && IsLetter(b[0]) && k <= |b| && forall i :: 0 <= i < k ==> !IsLetter(b[i])
    ensures b[k..] == b
  {
  }

  lemma SingleWordTokens()
    ensures Split(CollapseLetterless("a" + ""), ' ') + Split(CollapseLetterless("b"), ' ') == ["a", "b"]
  {
    assert "a" + "" == "a";
    CollapseKeepsNoSpace("a");
    CollapseKeepsNoSpace("b");
    SplitNoSeparator("a", ' ');
    SplitNoSeparator("b", ' ');
  }

  // ---------------------------------------------------------------------------
  // generateTags
  // ---------------------------------------------------------------------------

  /** The first loop's test: a non-empty word whose lower-case form is not a common word. */
  predicate IsUncommon(w: string, wordlist: set<string>) {
    Lower(w) !in wordlist && w != ""
  }

  /** `uncommonWords`: the words that pass the test, in input order. */
  function Uncommon(words: seq<string>, wordlist: set<string>): (u: seq<string>)
    ensures forall i :: 0 <= i < |u| ==> IsUncommon(u[i], wordlist)
  {
    if words == [] then []
    else (if IsUncommon(words[0], wordlist) then [words[0]] else [])
         + Uncommon(words[1..], wordlist)
  }

  lemma {:induction false} UncommonAppend(a: seq<string>, b: seq<string>, wordlist: set<string>)
    ensures Uncommon(a + b, wordlist) == Uncommon(a, wordlist) + Uncommon(b, wordlist)
  {
    if a != [] {
      UncommonAppend(a[1..], b, wordlist);
      assert (a + b)[1..] == a[1..] + b;
    } else {
      assert a + b == b;
    }
  }

  lemma UncommonSnoc(words: seq<string>, i: nat, wordlist: set<string>)
    requires i < |words|
    ensures Uncommon(words[..i + 1], wordlist) ==
            Uncommon(words[..i], wordlist) + (if IsUncommon(words[i], wordlist) then [words[i]] else [])
  {
    UncommonAppend(words[..i], [words[i]], wordlist);
    assert words[..i + 1] == words[..i] + [words[i]];
    assert Uncommon([words[i]], wordlist) == (if IsUncommon(words[i], wordlist) then [words[i]] else []) by {
      assert [words[i]][1..] == words[..0];
    }
  }

  /** Filtering keeps the full count of every word it keeps. */
  lemma {:induction false} UncommonCount(words: seq<string>, wordlist: set<string>, w: string)
    ensures Count(Uncommon(words, wordlist), w) ==
            (if IsUncommon(w, wordlist) then Count(words, w) else 0)
  {
    if words != [] {
      UncommonCount(words[1..], wordlist, w);
      var head := if IsUncommon(words[0], wordlist) then [words[0]] else [];
      CountAppend(head, Uncommon(words[1..], wordlist), w);
    }
  }

  /** Position of the first occurrence of `w` (the length of `ws` when absent). */
  function FirstIndex(ws: seq<string>, w: string): (k: nat)
    ensures k <= |ws|
    ensures k < |ws| <==> w in ws
    ensures k < |ws| ==> ws[k] == w
    ensures forall i :: 0 <= i < k ==> ws[i] != w
  {
    if ws == [] then 0 else if ws[0] == w then 0 else 1 + FirstIndex(ws[1..], w)
  }

  /** Filtering keeps the order of first occurrences of the words it keeps. */
  lemma {:induction false} UncommonFirstIndexOrder(words: seq<string>, wordlist: set<string>, a: string, b: string)
    requires IsUncommon(a, wordlist) && IsUncommon(b, wordlist) && a != b
    ensures FirstIndex(words, a) < FirstIndex(words, b) <==>
            FirstIndex(Uncommon(words, wordlist), a) < FirstIndex(Uncommon(words, wordlist), b)
  {
    if words != [] {
      var u := Uncommon(words, wordlist);
      var u' := Uncommon(words[1..], wordlist);
      if words[0] == a || words[0] == b {
        assert u == [words[0]] + u';
        assert u[0] == words[0];
        assert FirstIndex(words, words[0]) == 0 && FirstIndex(u, words[0]) == 0;
      } else if IsUncommon(words[0], wordlist) {
        UncommonFirstIndexOrder(words[1..], wordlist, a, b);
        assert u == [words[0]] + u';
        assert u[1..] == u';
        assert FirstIndex(u, a) == 1 + FirstIndex(u', a);
        assert FirstIndex(u, b) == 1 + FirstIndex(u', b);
      } else {
        UncommonFirstIndexOrder(words[1..], wordlist, a, b);
        assert u == u';
      }
    }
  }

  /** The order `Counter.most_common` lists words in: higher count first, and
      among equal counts the word seen first. */
  predicate RanksBefore(ws: seq<string>, a: string, b: string) {
    Count(ws, a) > Count(ws, b) || (Count(ws, a) == Count(ws, b) && FirstIndex(ws, a) < FirstIndex(ws, b))
  }

  predicate Ranked(ws: seq<string>, r: seq<string>) {
    forall i, j :: 0 <= i < j < |r| ==> RanksBefore(ws, r[i], r[j])
  }

  /** Inserts `x` into a ranked list, after every word that ranks before it. */
  function Insert(ws: seq<string>, x: string, r: seq<string>): (r': seq<string>)
    ensures |r'| == |r| + 1
    ensures forall y :: y in r' <==> y == x || y in r
  {
    if r == [] then [x]
    else if RanksBefore(ws, x, r[0]) then [x] + r
    else [r[0]] + Insert(ws, x, r[1..])
  }

  /** The distinct words of `items`, ranked by their counts in `ws`. */
  function RankAll(ws: seq<string>, items: seq<string>): (r: seq<string>)
    ensures forall y :: y in r <==> y in items
  {
    if items == [] then []
    else
      var rest := RankAll(ws, items[1..]);
      if items[0] in rest then rest else Insert(ws, items[0], rest)
  }

  lemma RanksBeforeTotal(ws: seq<string>, a: string, b: string)
    requires a in ws && b in ws && a != b
    ensures RanksBefore(ws, a, b) || RanksBefore(ws, b, a)
  {
  }

  lemma {:induction false} InsertRanked(ws: seq<string>, x: string, r: seq<string>)
    requires x in ws && x !in r && (forall y :: y in r ==> y in ws) && Ranked(ws, r)
    ensures Ranked(ws, Insert(ws, x, r))
  {
    if r != [] && !RanksBefore(ws, x, r[0]) {
      RanksBeforeTotal(ws, x, r[0]);
      assert Ranked(ws, r[1..]) by {
        forall i, j | 0 <= i < j < |r[1..]| ensures RanksBefore(ws, r[1..][i], r[1..][j]) {
          assert r[1..][i] == r[i + 1] && r[1..][j] == r[j + 1];
        }
      }
      InsertRanked(ws, x, r[1..]);
      var t := Insert(ws, x, r[1..]);
      var r' := [r[0]] + t;
      forall j | 0 < j < |r'| ensures RanksBefore(ws, r'[0], r'[j]) {
        assert r'[j] == t[j - 1];
        assert t[j - 1] in t;
        if t[j - 1] != x {
          var k :| 0 <= k < |r[1..]| && r[1..][k] == t[j - 1];
          assert r[k + 1] == t[j - 1];
        }
      }
      assert Ranked(ws, r') by {
        forall i, j | 0 <= i < j < |r'| ensures RanksBefore(ws, r'[i], r'[j]) {
          if i > 0 {
            assert r'[i] == t[i - 1] && r'[j] == t[j - 1];
          }
        }
      }
    }
  }

  lemma {:induction false} RankAllRanked(ws: seq<string>, items: seq<string>)
    requires forall y :: y in items ==> y in ws
    ensures Ranked(ws, RankAll(ws, items))
  {
    if items != [] {
      RankAllRanked(ws, items[1..]);
      var rest := RankAll(ws, items[1..]);
      if items[0] !in rest {
        InsertRanked(ws, items[0], rest);
      }
    }
  }

  /** A ranked list of distinct words of `ws` that holds all of them is cut after `n`
      entries: a word left out ranks below every word kept, and `n` were kept. */
  lemma RankedPrefixIsTop(ws: seq<string>, r: seq<string>, n: nat)
    requires Ranked(ws, r) && (forall y :: y in r <==> y in ws)
    ensures forall w :: w in ws && (forall i :: 0 <= i < |r| && i < n ==> r[i] != w) ==>
              n < |r| && forall i :: 0 <= i < n ==> RanksBefore(ws, r[i], w)
  {
    forall w | w in ws && (forall i :: 0 <= i < |r| && i < n ==> r[i] != w)
      ensures n < |r| && forall i :: 0 <= i < n ==> RanksBefore(ws, r[i], w)
    {
      var k :| 0 <= k < |r| && r[k] == w;
    }
  }

  /** `Counter(ws).most_common(n)`: the `n` highest-ranked distinct words with their counts. */
  function MostCommon(ws: seq<string>, n: nat): (top: seq<(string, nat)>)
    ensures |top| <= n
    ensures forall i :: 0 <= i < |top| ==> top[i].0 in ws && top[i].1 == Count(ws, top[i].0)
    ensures forall i, j :: 0 <= i < j < |top| ==> RanksBefore(ws, top[i].0, top[j].0)
    ensures forall w :: w in ws && (forall i :: 0 <= i < |top| ==> top[i].0 != w) ==>
              |top| == n && forall i :: 0 <= i < n ==> RanksBefore(ws, top[i].0, w)
  {
    var r := RankAll(ws, ws);
    var k := if n < |r| then n else |r|;
    var top := seq(k, i requires 0 <= i < k => (r[i], Count(ws, r[i])));
    TopOfRanking(ws, n, top);
    top
  }

  /** The first `n` entries of the ranking of all words, with their counts, are the `n` most common. */
  lemma TopOfRanking(ws: seq<string>, n: nat, top: seq<(string, nat)>)
    requires |top| == if n < |RankAll(ws, ws)| then n else |RankAll(ws, ws)|
    requires forall i :: 0 <= i < |top| ==> top[i] == (RankAll(ws, ws)[i], Count(ws, RankAll(ws, ws)[i]))
    ensures forall i :: 0 <= i < |top| ==> top[i].0 in ws && top[i].1 == Count(ws, top[i].0)
    ensures forall i, j :: 0 <= i < j < |top| ==> RanksBefore(ws, top[i].0, top[j].0)
    ensures forall w :: w in ws && (forall i :: 0 <= i < |top| ==> top[i].0 != w) ==>
              |top| == n && forall i :: 0 <= i < n ==> RanksBefore(ws, top[i].0, w)
  {
    var r := RankAll(ws, ws);
    RankAllRanked(ws, ws);
    RankedPrefixIsTop(ws, r, n);
    forall w | w in ws && (forall i :: 0 <= i < |top| ==> top[i].0 != w)
      ensures |top| == n && forall i :: 0 <= i < n ==> RanksBefore(ws, top[i].0, w)
    {
      forall i | 0 <= i < |r| && i < n ensures r[i] != w {
        assert top[i].0 == r[i];
      }
    }
  }

  /** The second loop: the words of the ranking whose count is above 2, in ranking order. */
  function AboveThreshold(top: seq<(string, nat)>): (tags: seq<string>)
    ensures |tags| <= |top|
  {
    if top == [] then []
    else (if top[0].1 > 2 then [top[0].0] else []) + AboveThreshold(top[1..])
  }

  lemma {:induction false} AboveThresholdMember(top: seq<(string, nat)>, t: string)
    ensures t in AboveThreshold(top) <==> exists i :: 0 <= i < |top| && top[i].0 == t && top[i].1 > 2
  {
    if top != [] {
      AboveThresholdMember(top[1..], t);
      if exists i :: 0 <= i < |top[1..]| && top[1..][i].0 == t && top[1..][i].1 > 2 {
        var i :| 0 <= i < |top[1..]| && top[1..][i].0 == t && top[1..][i].1 > 2;
        assert top[i + 1] == top[1..][i];
      }
      if exists i :: 1 <= i < |top| && top[i].0 == t && top[i].1 > 2 {
        var i :| 1 <= i < |top| && top[i].0 == t && top[i].1 > 2;
        assert top[1..][i - 1] == top[i];
      }
    }
  }

  /** The threshold filter keeps exactly the words counted more than twice, and all of
      them when every count is above 2. */
  lemma {:induction false} AboveThresholdMembers(top: seq<(string, nat)>)
    ensures forall t :: t in AboveThreshold(top) <==>
              exists i :: 0 <= i < |top| && top[i].0 == t && top[i].1 > 2
    ensures (forall i :: 0 <= i < |top| ==> top[i].1 > 2) ==> |AboveThreshold(top)| == |top|
  {
    forall t ensures t in AboveThreshold(top) <==> exists i :: 0 <= i < |top| && top[i].0 == t && top[i].1 > 2 {
      AboveThresholdMember(top, t);
    }
    if top != [] {
      AboveThresholdMembers(top[1..]);
    }
  }

  /** The threshold filter keeps the ranking order of the words it keeps. */
  lemma {:induction false} AboveThresholdRanked(ws: seq<string>, top: seq<(string, nat)>)
    requires forall i, j :: 0 <= i < j < |top| ==> RanksBefore(ws, top[i].0, top[j].0)
    ensures Ranked(ws, AboveThreshold(top))
  {
    if top != [] {
      AboveThresholdRanked(ws, top[1..]);
      AboveThresholdMembers(top[1..]);
      var rest := AboveThreshold(top[1..]);
      var tags := AboveThreshold(top);
      if top[0].1 > 2 {
        assert tags == [top[0].0] + rest;
        forall j | 0 < j < |tags| ensures RanksBefore(ws, tags[0], tags[j]) {
          assert tags[j] == rest[j - 1] && rest[j - 1] in rest;
          var i :| 0 <= i < |top[1..]| && top[1..][i].0 == rest[j - 1] && top[1..][i].1 > 2;
          assert top[i + 1].0 == tags[j];
        }
        forall i, j | 0 < i < j < |tags| ensures RanksBefore(ws, tags[i], tags[j]) {
          assert tags[i] == rest[i - 1] && tags[j] == rest[j - 1];
        }
      } else {
        assert tags == rest;
      }
    }
  }

  lemma {:induction false} AboveThresholdAppend(a: seq<(string, nat)>, b: seq<(string, nat)>)
    ensures AboveThreshold(a + b) == AboveThreshold(a) + AboveThreshold(b)
  {
    if a != [] {
      AboveThresholdAppend(a[1..], b);
      assert (a + b)[1..] == a[1..] + b;
    } else {
      assert a + b == b;
    }
  }

  lemma AboveThresholdSnoc(top: seq<(string, nat)>, i: nat)
    requires i < |top|
    ensures AboveThreshold(top[..i + 1]) ==
            AboveThreshold(top[..i]) + (if top[i].1 > 2 then [top[i].0] else [])
  {
    AboveThresholdAppend(top[..i], [top[i]]);
    assert top[..i + 1] == top[..i] + [top[i]];
    assert AboveThreshold([top[i]]) == (if top[i].1 > 2 then [top[i].0] else []) by {
      assert [top[i]][1..] == top[..0];
    }
  }

  /** `generateTags` as a value: what the two loops and the counter compute together. */
  function Tags(words: seq<string>, wordlist: set<string>): seq<string> {
    AboveThreshold(MostCommon(Uncommon(words, wordlist), 10))
  }

  /** Ranks over the uncommon words agree with ranks over the whole token list. */
  lemma RanksBeforeUncommon(words: seq<string>, wordlist: set<string>, a: string, b: string)
    requires IsUncommon(a, wordlist) && IsUncommon(b, wordlist)
    ensures RanksBefore(Uncommon(words, wordlist), a, b) <==> RanksBefore(words, a, b)
  {
    UncommonCount(words, wordlist, a);
    UncommonCount(words, wordlist, b);
    if a != b {
      UncommonFirstIndexOrder(words, wordlist, a, b);
    }
  }

  /** Each tag is non-empty, not a common word once lower-cased, and seen more than twice. */
  lemma TagsAreFrequentUncommonWords(words: seq<string>, wordlist: set<string>)
    ensures |Tags(words, wordlist)| <= 10
    ensures forall t :: t in Tags(words, wordlist) ==>
              t != "" && Lower(t) !in wordlist && Count(words, t) > 2
  {
    var u := Uncommon(words, wordlist);
    var top := MostCommon(u, 10);
    AboveThresholdMembers(top);
    forall t | t in AboveThreshold(top) ensures t != "" && Lower(t) !in wordlist && Count(words, t) > 2 {
      var i :| 0 <= i < |top| && top[i].0 == t && top[i].1 > 2;
      UncommonCount(words, wordlist, t);
    }
  }

  /** Tags come by non-increasing count, equal counts in order of first occurrence. */
  lemma TagsAreRanked(words: seq<string>, wordlist: set<string>)
    ensures forall i, j :: 0 <= i < j < |Tags(words, wordlist)| ==>
              RanksBefore(words, Tags(words, wordlist)[i], Tags(words, wordlist)[j])
  {
    var u := Uncommon(words, wordlist);
    var top := MostCommon(u, 10);
    var tags := AboveThreshold(top);
    AboveThresholdRanked(u, top);
    AboveThresholdMembers(top);
    forall i, j | 0 <= i < j < |tags| ensures RanksBefore(words, tags[i], tags[j]) {
      assert tags[i] in tags && tags[j] in tags;
      var i' :| 0 <= i' < |top| && top[i'].0 == tags[i];
      var j' :| 0 <= j' < |top| && top[j'].0 == tags[j];
      RanksBeforeUncommon(words, wordlist, tags[i], tags[j]);
    }
  }

  /** An uncommon word seen more than twice is left out only when ten tags rank above it. */
  lemma TagsAreComplete(words: seq<string>, wordlist: set<string>)
    ensures forall w :: IsUncommon(w, wordlist) && Count(words, w) > 2 && w !in Tags(words, wordlist) ==>
              |Tags(words, wordlist)| == 10 &&
              forall t :: t in Tags(words, wordlist) ==> RanksBefore(words, t, w)
  {
    var u := Uncommon(words, wordlist);
    var top := MostCommon(u, 10);
    var tags := AboveThreshold(top);
    AboveThresholdMembers(top);
    forall w | IsUncommon(w, wordlist) && Count(words, w) > 2 && w !in tags
      ensures |tags| == 10 && forall t :: t in tags ==> RanksBefore(words, t, w)
    {
      UncommonCount(words, wordlist, w);
      assert w in u;
      assert forall i :: 0 <= i < |top| ==> top[i].0 == w ==> top[i].1 > 2;
      assert |top| == 10;
      forall t | t in tags ensures RanksBefore(words, t, w) {
        var i :| 0 <= i < |top| && top[i].0 == t && top[i].1 > 2;
        RanksBeforeUncommon(words, wordlist, t, w);
      }
    }
  }

  /**
   * What `generateTags` promises: at most ten tags; each is non-empty, is not a common
   * word once lower-cased, and occurs more than twice in the token list (counted
   * case-sensitively); the tags are ranked by non-increasing count with ties in order
   * of first occurrence, hence distinct; and an uncommon word seen more than twice is
   * left out only when ten tags already rank above it.
   */
  lemma TagsProperties(words: seq<string>, wordlist: set<string>)
    ensures |Tags(words, wordlist)| <= 10
    ensures forall t :: t in Tags(words, wordlist) ==>
              t != "" && Lower(t) !in wordlist && Count(words, t) > 2
    ensures forall i, j :: 0 <= i < j < |Tags(words, wordlist)| ==>
              RanksBefore(words, Tags(words, wordlist)[i], Tags(words, wordlist)[j])
    ensures forall i, j :: 0 <= i < j < |Tags(words, wordlist)| ==>
              Tags(words, wordlist)[i] != Tags(words, wordlist)[j]
    ensures forall w :: IsUncommon(w, wordlist) && Count(words, w) > 2 && w !in Tags(words, wordlist) ==>
              |Tags(words, wordlist)| == 10 &&
              forall t :: t in Tags(words, wordlist) ==> RanksBefore(words, t, w)
  {
    TagsAreFrequentUncommonWords(words, wordlist);
    TagsAreRanked(words, wordlist);
    TagsAreComplete(words, wordlist);
  }

  /** `generateTags`, with the word list passed in instead of read from a file. */
  method GenerateTags(clearTextList: seq<string>, wordlist: set<string>) returns (tagList: seq<string>)
    ensures tagList == Tags(clearTextList, wordlist)
    ensures |tagList| <= 10
  {
    var uncommonWords: seq<string> := [];
    for i := 0 to |clearTextList|
      invariant uncommonWords == Uncommon(clearTextList[..i], wordlist)
    {
      var word := clearTextList[i];
      UncommonSnoc(clearTextList, i, wordlist);
      if Lower(word) !in wordlist && word != "" {
        uncommonWords := uncommonWords + [word];
      }
    }
    assert clearTextList[..|clearTextList|] == clearTextList;

    var sortedByFreq := MostCommon(uncommonWords, 10);

    tagList := [];
    for i := 0 to |sortedByFreq|
      invariant tagList == AboveThreshold(sortedByFreq[..i])
    {
      var wordCount := sortedByFreq[i];
      AboveThresholdSnoc(sortedByFreq, i);
      if wordCount.1 > 2 {
        tagList := tagList + [wordCount.0];
      }
    }
    assert sortedByFreq[..|sortedByFreq|] == sortedByFreq;
  }
}
