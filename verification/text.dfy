/** The parts of Python's `str` that the path shortener relies on: whitespace,
    ASCII case mapping (`lower`, `upper`, `title`), `startswith`, `sep.join`,
    `split(sep)`, `split()` and the slice `s[:n]`. */
module Text {

  /** Python's `str.isspace`, which both `str.split()` and the regular expression
      `\s` use: the ASCII controls 9-13 and 28-31, space, and the Unicode spaces. */
  predicate IsSpace(c: char) {
    || c == ' '
    || '\t' <= c <= '\r'
    || '\U{1C}' <= c <= '\U{1F}'
    || c == '\U{85}' || c == '\U{A0}' || c == '\U{1680}'
    || '\U{2000}' <= c <= '\U{200A}'
    || c == '\U{2028}' || c == '\U{2029}' || c == '\U{202F}' || c == '\U{205F}'
    || c == '\U{3000}'
  }

  /** A token as `str.split()` produces it: non-empty, without whitespace. */
  predicate IsWord(w: string) {
    |w| > 0 && forall i :: 0 <= i < |w| ==> !IsSpace(w[i])
  }

  /** True when the string holds something other than whitespace, so that
      `re.sub(r"\s+", "", s)` is non-empty. */
  predicate HasNonSpace(s: string) {
    exists i :: 0 <= i < |s| && !IsSpace(s[i])
  }

  // ----- ASCII case mapping -----

  predicate IsUpperChar(c: char) { 'A' <= c <= 'Z' }
  predicate IsLowerChar(c: char) { 'a' <= c <= 'z' }
  /** A cased character, in the sense of `str.title`, restricted to ASCII. */
  predicate IsLetter(c: char) { IsUpperChar(c) || IsLowerChar(c) }

  function LowerChar(c: char): (r: char)
    ensures !IsUpperChar(r)
    ensures IsLetter(r) <==> IsLetter(c)
    ensures !IsLetter(c) ==> r == c
  {
    if IsUpperChar(c) then (c as int + 32) as char else c
  }

  function UpperChar(c: char): (r: char)
    ensures !IsLowerChar(r)
    ensures IsLetter(r) <==> IsLetter(c)
    ensures !IsLetter(c) ==> r == c
  {
    if IsLowerChar(c) then (c as int - 32) as char else c
  }

  /** `str.lower` on ASCII. */
  function Lower(s: string): (r: string)
    ensures |r| == |s|
    ensures forall i :: 0 <= i < |s| ==> r[i] == LowerChar(s[i])
  {
    seq(|s|, i requires 0 <= i < |s| => LowerChar(s[i]))
  }

  /** `str.upper` on ASCII. */
  function Upper(s: string): (r: string)
    ensures |r| == |s|
    ensures forall i :: 0 <= i < |s| ==> r[i] == UpperChar(s[i])
  {
    seq(|s|, i requires 0 <= i < |s| => UpperChar(s[i]))
  }

  /** `str.title` on ASCII, written the way CPython computes it: one pass that
      upper-cases a character after an uncased one and lower-cases it after a
      cased one. */
  function TitleFrom(s: string, afterLetter: bool): (r: string)
    ensures |r| == |s|
    ensures |s| > 0 ==> r[0] == if afterLetter then LowerChar(s[0]) else UpperChar(s[0])
    ensures forall i :: 0 < i < |s| ==>
              r[i] == if IsLetter(s[i - 1]) then LowerChar(s[i]) else UpperChar(s[i])
  {
    if |s| == 0 then []
    else
      var c := if afterLetter then LowerChar(s[0]) else UpperChar(s[0]);
      [c] + TitleFrom(s[1..], IsLetter(s[0]))
  }

  /** Each character is upper-cased at the start of a word (at the front, or after
      an uncased character) and lower-cased inside one. */
  function Title(s: string): (r: string)
    ensures |r| == |s|
    ensures forall i :: 0 <= i < |s| ==>
              r[i] == if i > 0 && IsLetter(s[i - 1]) then LowerChar(s[i]) else UpperChar(s[i])
  {
    TitleFrom(s, false)
  }

  /** Title-casing a title-cased string changes nothing: case mapping keeps every
      character's cased-ness, so the same word boundaries are found again. */
  lemma {:induction false} TitleIdempotent(s: string)
    ensures Title(Title(s)) == Title(s)
  {
    var t := Title(s);
    var u := Title(t);
    assert |u| == |t| == |s|;
    forall i | 0 <= i < |s|
      ensures u[i] == t[i]
    {
      if i > 0 {
        var j := i - 1;
        var c := s[j];
        assert t[j] == if j > 0 && IsLetter(s[j - 1]) then LowerChar(c) else UpperChar(c);
        assert IsLetter(LowerChar(c)) <==> IsLetter(c);
        assert IsLetter(UpperChar(c)) <==> IsLetter(c);
      }
    }
  }

  // ----- prefixes, suffixes, slices -----

  /** `s.startswith(prefix)`. */
  predicate StartsWith(s: string, prefix: string) {
    |prefix| <= |s| && s[..|prefix|] == prefix
  }

  /** `s.endswith(suffix)`. */
  predicate EndsWith(s: string, suffix: string) {
    |suffix| <= |s| && s[|s| - |suffix|..] == suffix
  }

  /** Putting text in front keeps a suffix. */
  lemma EndsWithAppend(x: string, y: string, suffix: string)
    requires EndsWith(y, suffix)
    ensures EndsWith(x + y, suffix)
  {
    assert (x + y)[|x + y| - |suffix|..] == y[|y| - |suffix|..];
  }

  function Min(a: int, b: int): int { if a <= b then a else b }
  function Max(a: int, b: int): int { if a >= b then a else b }

  /** Python's slice `s[:n]`: a negative `n` counts from the end and clamps at 0. */
  function SliceTo(s: string, n: int): (r: string)
    ensures StartsWith(s, r)
    ensures n >= 0 ==> |r| == Min(n, |s|)
    ensures n < 0 ==> |r| == Max(0, |s| + n)
  {
    if n >= 0 then (if n <= |s| then s[..n] else s)
    else if |s| + n >= 0 then s[..|s| + n]
    else []
  }

  // ----- join and split -----

  /** `sep.join(parts)`. */
  function Join(parts: seq<string>, sep: string): (r: string)
    ensures |parts| == 0 ==> r == []
    ensures |parts| == 1 ==> r == parts[0]
    ensures |parts| > 0 ==> StartsWith(r, parts[0])
  {
    if |parts| == 0 then []
    else if |parts| == 1 then parts[0]
    else parts[0] + sep + Join(parts[1..], sep)
  }

  /** The index of the first `c` in `s`. */
  function IndexOf(s: string, c: char): (i: nat)
    requires c in s
    ensures i < |s| && s[i] == c
    ensures forall k :: 0 <= k < i ==> s[k] != c
  {
    if s[0] == c then 0
    else
      assert c in s[1..] by { assert s == [s[0]] + s[1..]; }
      1 + IndexOf(s[1..], c)
  }

  /** The index of the last `c` in `s`, or -1 (`str.rfind`). */
  function LastIndexOf(s: string, c: char): (i: int)
    ensures -1 <= i < |s|
    ensures i >= 0 ==> s[i] == c
    ensures forall k :: i < k < |s| ==> s[k] != c
  {
    if |s| == 0 then -1
    else if s[|s| - 1] == c then |s| - 1
    else LastIndexOf(s[..|s| - 1], c)
  }

  /** `s.split(c)` for a one-character separator: always at least one part, and
      no part holds the separator. */
  function Split(s: string, c: char): (r: seq<string>)
    ensures |r| >= 1
    ensures forall i :: 0 <= i < |r| ==> c !in r[i]
    ensures Join(r, [c]) == s
    decreases |s|
  {
    if c !in s then [s]
    else
      var i := IndexOf(s, c);
      var rest := Split(s[i + 1..], c);
      assert ([s[..i]] + rest)[1..] == rest;
      assert s == s[..i] + [c] + s[i + 1..];
      [s[..i]] + rest
  }

  /** A part without the separator, then the separator and more text, splits
      into that part and the split of the rest. */
  lemma SplitAfterPart(part: string, c: char, rest: string)
    requires c !in part
    ensures Split(part + [c] + rest, c) == [part] + Split(rest, c)
  {
    var s := part + [c] + rest;
    assert s[|part|] == c;
    assert forall k :: 0 <= k < |part| ==> s[k] == part[k];
    var i := IndexOf(s, c);
    assert i == |part|;
    assert s[..i] == part;
    assert s[i + 1..] == rest;
  }

  /** Splitting what was joined gives the parts back, when no part holds the separator. */
  lemma {:induction false} SplitJoin(parts: seq<string>, c: char)
    requires |parts| >= 1
    requires forall i :: 0 <= i < |parts| ==> c !in parts[i]
    ensures Split(Join(parts, [c]), c) == parts
    decreases |parts|
  {
    if |parts| > 1 {
      var rest := Join(parts[1..], [c]);
      assert Join(parts, [c]) == parts[0] + [c] + rest;
      SplitAfterPart(parts[0], c, rest);
      SplitJoin(parts[1..], c);
      assert [parts[0]] + parts[1..] == parts;
    }
  }

  /** The length of the leading run of non-whitespace characters. */
  function WordEnd(s: string): (n: nat)
    ensures n <= |s|
    ensures forall i :: 0 <= i < n ==> !IsSpace(s[i])
    ensures n < |s| ==> IsSpace(s[n])
  {
    if |s| == 0 || IsSpace(s[0]) then 0 else 1 + WordEnd(s[1..])
  }

  /** `s.split()`: the maximal runs of non-whitespace, in order. It is empty
      exactly when `s` is blank. */
  function SplitWords(s: string): (r: seq<string>)
    ensures forall i :: 0 <= i < |r| ==> IsWord(r[i])
    ensures |r| == 0 <==> !HasNonSpace(s)
    decreases |s|
  {
    if |s| == 0 then []
    else if IsSpace(s[0]) then
      assert HasNonSpace(s) <==> HasNonSpace(s[1..]) by {
        if HasNonSpace(s) {
          var k :| 0 <= k < |s| && !IsSpace(s[k]);
          assert s[1..][k - 1] == s[k];
        }
        if HasNonSpace(s[1..]) {
          var k :| 0 <= k < |s[1..]| && !IsSpace(s[1..][k]);
          assert s[k + 1] == s[1..][k];
        }
      }
      SplitWords(s[1..])
    else
      var n := WordEnd(s);
      assert !IsSpace(s[0]);
      [s[..n]] + SplitWords(s[n..])
  }

  lemma {:induction false} WordEndOfWord(w: string, rest: string)
    requires IsWord(w)
    requires |rest| == 0 || IsSpace(rest[0])
    ensures WordEnd(w + rest) == |w|
    decreases |w|
  {
    var s := w + rest;
    if |w| == 1 {
      assert s[1..] == rest;
    } else {
      assert s[1..] == w[1..] + rest;
      WordEndOfWord(w[1..], rest);
    }
  }

  /** A word followed by a space and more text splits into that word and the
      split of the rest. */
  lemma SplitWordsAfterWord(w: string, tail: string)
    requires IsWord(w)
    ensures SplitWords(w + (" " + tail)) == [w] + SplitWords(tail)
  {
    var s := w + (" " + tail);
    WordEndOfWord(w, " " + tail);
    assert s[..|w|] == w;
    assert s[|w|..] == " " + tail;
    assert (" " + tail)[1..] == tail;
  }

  /** `" ".join(words).split()` gives the words back: the round trip that
      makes a single space a faithful word separator. */
  lemma {:induction false} SplitWordsJoin(words: seq<string>)
    requires forall i :: 0 <= i < |words| ==> IsWord(words[i])
    ensures SplitWords(Join(words, " ")) == words
    decreases |words|
  {
    if |words| == 0 {
    } else if |words| == 1 {
      var w := words[0];
      WordEndOfWord(w, []);
      assert w + [] == w;
      assert w[|w|..] == [];
    } else {
      var tail := Join(words[1..], " ");
      assert Join(words, " ") == words[0] + (" " + tail);
      SplitWordsAfterWord(words[0], tail);
      SplitWordsJoin(words[1..]);
      assert [words[0]] + words[1..] == words;
    }
  }

  // ----- an independent description of `str.split()` -----

  /** Nothing but whitespace, or nothing at all. */
  predicate Blank(g: string) {
    forall i :: 0 <= i < |g| ==> IsSpace(g[i])
  }

  /** Gaps and words in alternation, starting and ending with a gap. */
  function Interleave(gaps: seq<string>, words: seq<string>): string
    requires |gaps| == |words| + 1
    decreases |words|
  {
    if |words| == 0 then gaps[0]
    else gaps[0] + words[0] + Interleave(gaps[1..], words[1..])
  }

  /** `s` is the words set in blank gaps, with a non-empty gap between any two
      neighbouring words: the words are then the maximal runs of non-whitespace. */
  ghost predicate WordLayout(s: string, words: seq<string>, gaps: seq<string>) {
    && |gaps| == |words| + 1
    && (forall i :: 0 <= i < |words| ==> IsWord(words[i]))
    && (forall i :: 0 <= i < |gaps| ==> Blank(gaps[i]))
    && (forall i :: 0 < i < |words| ==> gaps[i] != [])
    && s == Interleave(gaps, words)
  }

  /** `split()` is exactly the word layout of the string: its result is the one
      sequence of words that, set in blank gaps, rebuilds `s`. */
  lemma SplitWordsMeaning(s: string, words: seq<string>)
    ensures SplitWords(s) == words <==> exists gaps :: WordLayout(s, words, gaps)
  {
    SplitWordsHasLayout(s);
    assert WordLayout(s, SplitWords(s), SplitGaps(s));
    if exists gaps :: WordLayout(s, words, gaps) {
      var gaps :| WordLayout(s, words, gaps);
      SplitWordsUnique(s, words, gaps);
    }
  }

  /** Leading whitespace does not change `split()`. */
  lemma {:induction false} SplitWordsAfterBlank(g: string, t: string)
    requires Blank(g)
    ensures SplitWords(g + t) == SplitWords(t)
    decreases |g|
  {
    if |g| == 0 {
      assert g + t == t;
    } else {
      assert (g + t)[0] == g[0];
      assert (g + t)[1..] == g[1..] + t;
      SplitWordsAfterBlank(g[1..], t);
    }
  }

  /** A word followed by nothing or by whitespace splits off as one token. */
  lemma SplitWordsWordFirst(w: string, rest: string)
    requires IsWord(w)
    requires |rest| == 0 || IsSpace(rest[0])
    ensures SplitWords(w + rest) == [w] + SplitWords(rest)
  {
    var s := w + rest;
    WordEndOfWord(w, rest);
    assert s[0] == w[0];
    assert s[..|w|] == w;
    assert s[|w|..] == rest;
  }

  /** A layout with a first word splits into a blank gap, that word, and a
      layout of the rest that starts with whitespace or is blank. */
  lemma LayoutTail(s: string, words: seq<string>, gaps: seq<string>)
    requires WordLayout(s, words, gaps) && |words| > 0
    ensures var rest := Interleave(gaps[1..], words[1..]);
      && s == gaps[0] + (words[0] + rest)
      && WordLayout(rest, words[1..], gaps[1..])
      && (|rest| == 0 || IsSpace(rest[0]))
  {
    var rest := Interleave(gaps[1..], words[1..]);
    if |words| > 1 {
      assert gaps[1..][1..] == gaps[2..];
      assert rest == gaps[1] + (words[1] + Interleave(gaps[2..], words[1..][1..]));
      assert rest[0] == gaps[1][0];
    } else {
      assert rest == gaps[1];
    }
  }

  /** Any word layout of `s` is the one `split()` finds. */
  lemma {:induction false} SplitWordsUnique(s: string, words: seq<string>, gaps: seq<string>)
    requires WordLayout(s, words, gaps)
    ensures SplitWords(s) == words
    decreases |words|
  {
    if |words| == 0 {
      assert s == gaps[0];
    } else {
      var rest := Interleave(gaps[1..], words[1..]);
      LayoutTail(s, words, gaps);
      SplitWordsAfterBlank(gaps[0], words[0] + rest);
      SplitWordsWordFirst(words[0], rest);
      SplitWordsUnique(rest, words[1..], gaps[1..]);
      assert [words[0]] + words[1..] == words;
    }
  }

  /** A whitespace character in front of a layout widens its first gap. */
  lemma LayoutAfterSpace(c: char, t: string, words: seq<string>, inner: seq<string>)
    requires IsSpace(c)
    requires WordLayout(t, words, inner)
    ensures WordLayout([c] + t, words, [[c] + inner[0]] + inner[1..])
  {
    var gaps := [[c] + inner[0]] + inner[1..];
    assert gaps[1..] == inner[1..];
    assert Blank(gaps[0]) by {
      assert forall i :: 0 < i < |gaps[0]| ==> gaps[0][i] == inner[0][i - 1];
    }
  }

  /** A word in front of a layout, followed by nothing or by whitespace, becomes
      its first word after an empty gap. */
  lemma LayoutAfterWord(w: string, rest: string, ws: seq<string>, inner: seq<string>)
    requires IsWord(w)
    requires |rest| == 0 || IsSpace(rest[0])
    requires WordLayout(rest, ws, inner)
    ensures WordLayout(w + rest, [w] + ws, [[]] + inner)
  {
    var gaps := [[]] + inner;
    assert gaps[1..] == inner;
    assert ([w] + ws)[1..] == ws;
    assert Interleave(gaps, [w] + ws) == [] + w + rest;
  }

  /** The whitespace runs around the tokens of `split()`: the first gap, the
      gaps between tokens, and the last gap. */
  function SplitGaps(s: string): (r: seq<string>)
    ensures |r| >= 1
    decreases |s|
  {
    if |s| == 0 then [[]]
    else if IsSpace(s[0]) then
      var g := SplitGaps(s[1..]);
      [[s[0]] + g[0]] + g[1..]
    else
      [[]] + SplitGaps(s[WordEnd(s)..])
  }

  /** `split()` always has a word layout: its tokens set in the whitespace runs
      of `s`. */
  lemma {:induction false} SplitWordsHasLayout(s: string)
    ensures WordLayout(s, SplitWords(s), SplitGaps(s))
    decreases |s|
  {
    if |s| == 0 {
    } else if IsSpace(s[0]) {
      SplitWordsHasLayout(s[1..]);
      LayoutAfterSpace(s[0], s[1..], SplitWords(s[1..]), SplitGaps(s[1..]));
      assert [s[0]] + s[1..] == s;
    } else {
      var n := WordEnd(s);
      SplitWordsHasLayout(s[n..]);
      LayoutAfterWord(s[..n], s[n..], SplitWords(s[n..]), SplitGaps(s[n..]));
      assert s[..n] + s[n..] == s;
    }
  }
}
