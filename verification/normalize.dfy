/** Punctuation clean-up at the start of `shorten_path`: on the path without its
    extension, every split-punctuation character becomes a space, then every
    fill-punctuation character is deleted; the extension is put back unchanged. */
module Normalize {
  import opened Text
  import opened Paths
  import opened Settings

  /** `s.replace(c, by)` for a one-character needle. */
  function ReplaceChar(s: string, c: char, with: string): (r: string)
    ensures |with| == 1 ==> |r| == |s| && forall i :: 0 <= i < |s| ==> r[i] == if s[i] == c then with[0] else s[i]
  {
    if |s| == 0 then []
    else (if s[0] == c then with else [s[0]]) + ReplaceChar(s[1..], c, with)
  }

  /** The loop `for c in SPLIT_PUNCTUATION: root = root.replace(c, " ")`. */
  function SplitPass(s: string, split: string): (r: string)
    ensures |r| == |s|
    ensures forall i :: 0 <= i < |s| ==> r[i] == if s[i] in split then ' ' else s[i]
    decreases |split|
  {
    if |split| == 0 then s
    else
      var t := ReplaceChar(s, split[0], " ");
      var r := SplitPass(t, split[1..]);
      assert forall x :: x in split <==> x == split[0] || x in split[1..] by {
        assert split == [split[0]] + split[1..];
      }
      r
  }

  /** Reference meaning of deletion: the characters of `s` that are not in `cs`,
      in order. */
  function DeleteChars(s: string, cs: string): (r: string)
    ensures |r| <= |s|
    ensures forall i :: 0 <= i < |r| ==> r[i] !in cs
  {
    if |s| == 0 then []
    else (if s[0] in cs then [] else [s[0]]) + DeleteChars(s[1..], cs)
  }

  /** Deletion keeps every occurrence of a character outside `cs` and none of
      one inside it. */
  lemma {:induction false} DeleteCharsCounts(s: string, cs: string)
    ensures forall x :: multiset(DeleteChars(s, cs))[x] == if x in cs then 0 else multiset(s)[x]
    decreases |s|
  {
    if |s| > 0 {
      DeleteCharsCounts(s[1..], cs);
      assert s == [s[0]] + s[1..];
    }
  }

  /** The loop `for c in FILL_PUNCTUATION: root = root.replace(c, "")`. */
  function FillPass(s: string, fill: string): string
    decreases |fill|
  {
    if |fill| == 0 then s
    else FillPass(ReplaceChar(s, fill[0], ""), fill[1..])
  }

  /** Deleting one character and then a set of others is deleting both. */
  lemma {:induction false} DeleteAfterReplace(s: string, c: char, rest: string)
    ensures DeleteChars(ReplaceChar(s, c, ""), rest) == DeleteChars(s, [c] + rest)
    decreases |s|
  {
    if |s| > 0 {
      DeleteAfterReplace(s[1..], c, rest);
      var head := if s[0] == c then "" else [s[0]];
      assert ReplaceChar(s, c, "") == head + ReplaceChar(s[1..], c, "");
      DeleteAppend(head, ReplaceChar(s[1..], c, ""), rest);
    }
  }

  lemma {:induction false} DeleteAppend(a: string, b: string, cs: string)
    ensures DeleteChars(a + b, cs) == DeleteChars(a, cs) + DeleteChars(b, cs)
    decreases |a|
  {
    if |a| == 0 {
      assert a + b == b;
    } else {
      assert (a + b)[1..] == a[1..] + b;
      DeleteAppend(a[1..], b, cs);
    }
  }

  /** The sequence of `replace(c, "")` calls deletes exactly the fill characters. */
  lemma {:induction false} FillPassDeletes(s: string, fill: string)
    ensures FillPass(s, fill) == DeleteChars(s, fill)
    decreases |fill|
  {
    if |fill| == 0 {
      DeleteNothing(s, fill);
    } else {
      FillPassDeletes(ReplaceChar(s, fill[0], ""), fill[1..]);
      DeleteAfterReplace(s, fill[0], fill[1..]);
      assert [fill[0]] + fill[1..] == fill;
    }
  }

  lemma {:induction false} DeleteNothing(s: string, cs: string)
    requires |cs| == 0
    ensures DeleteChars(s, cs) == s
    decreases |s|
  {
    if |s| > 0 {
      DeleteNothing(s[1..], cs);
      assert [s[0]] + s[1..] == s;
    }
  }

  /** The cleaned stem: no fill character is left, and the only split character
      that can remain is the space the split pass writes. */
  function NormalizeStem(stem: string, cfg: Config): (r: string)
    ensures forall i :: 0 <= i < |r| ==> r[i] !in cfg.fillPunctuation
    ensures forall i :: 0 <= i < |r| ==> r[i] in cfg.splitPunctuation ==> r[i] == ' '
  {
    var spaced := SplitPass(stem, cfg.splitPunctuation);
    FillPassDeletes(spaced, cfg.fillPunctuation);
    DeleteCharsCounts(spaced, cfg.fillPunctuation);
    var r := FillPass(spaced, cfg.fillPunctuation);
    forall i | 0 <= i < |r| && r[i] in cfg.splitPunctuation
      ensures r[i] == ' '
    {
      assert multiset(r)[r[i]] > 0;
      assert r[i] in spaced;
      var j :| 0 <= j < |spaced| && spaced[j] == r[i];
    }
    r
  }

  /** Lines 62-71 of `shorten_path`: the stem is cleaned and the extension found
      by `os.path.splitext` is reattached verbatim. */
  function NormalizePath(path: string, cfg: Config): (r: string)
    ensures r == NormalizeStem(SplitExt(path).stem, cfg) + SplitExt(path).ext
    ensures var ext := SplitExt(path).ext;
      && EndsWith(r, ext)
      && forall i :: 0 <= i < |r| - |ext| ==>
           r[i] !in cfg.fillPunctuation && (r[i] in cfg.splitPunctuation ==> r[i] == ' ')
  {
    var parts := SplitExt(path);
    var stem := NormalizeStem(parts.stem, cfg);
    assert (stem + parts.ext)[|stem|..] == parts.ext;
    stem + parts.ext
  }

  /** Reference meaning of the split pass: each split character replaced by a
      space, position by position. */
  function Spaced(s: string, split: string): string {
    seq(|s|, i requires 0 <= i < |s| => if s[i] in split then ' ' else s[i])
  }

  /** Independent statement of the whole clean-up: replace each split character by
      a space, then keep the characters that are not fill characters. */
  lemma NormalizeStemMeaning(stem: string, cfg: Config)
    ensures NormalizeStem(stem, cfg) == DeleteChars(Spaced(stem, cfg.splitPunctuation), cfg.fillPunctuation)
  {
    var spaced := SplitPass(stem, cfg.splitPunctuation);
    FillPassDeletes(spaced, cfg.fillPunctuation);
    assert spaced == Spaced(stem, cfg.splitPunctuation);
  }

  /** The whole clean-up of a path against the independent reference: outside
      the extension found by `os.path.splitext`, each split character becomes a
      space and the fill characters are dropped; the extension is kept verbatim. */
  lemma NormalizePathMeaning(path: string, cfg: Config)
    ensures NormalizePath(path, cfg)
      == DeleteChars(Spaced(SplitExt(path).stem, cfg.splitPunctuation), cfg.fillPunctuation) + SplitExt(path).ext
  {
    NormalizeStemMeaning(SplitExt(path).stem, cfg);
  }
}
