/** Word-level stages of the shortener: the strike filter (`remove_strike_words`),
    deduplication against the set of used words with the naive plural flip
    (`remove_dupe_words`), and case formatting (`format_word`). */
module Words {
  import opened Seqs
  import opened Text
  import opened Settings

  // ----- strike filter -----

  /** STRIKE_WORDS as the program keeps them: lower-cased once when loaded. */
  function StrikePrefixes(cfg: Config): (r: seq<string>)
    ensures |r| == |cfg.strikeWords|
    ensures forall i :: 0 <= i < |r| ==> r[i] == Lower(cfg.strikeWords[i])
  {
    Map(cfg.strikeWords, Lower)
  }

  /** The generator `any(s.startswith(prefix) for prefix in prefixes)`. */
  function AnyStartsWith(s: string, prefixes: seq<string>): bool {
    if |prefixes| == 0 then false
    else StartsWith(s, prefixes[0]) || AnyStartsWith(s, prefixes[1..])
  }

  lemma {:induction false} AnyStartsWithMeaning(s: string, prefixes: seq<string>)
    ensures AnyStartsWith(s, prefixes) <==> exists i :: 0 <= i < |prefixes| && StartsWith(s, prefixes[i])
    decreases |prefixes|
  {
    if |prefixes| > 0 {
      AnyStartsWithMeaning(s, prefixes[1..]);
      if AnyStartsWith(s, prefixes[1..]) {
        var i :| 0 <= i < |prefixes[1..]| && StartsWith(s, prefixes[1..][i]);
        assert prefixes[1..][i] == prefixes[i + 1];
      }
      if exists i :: 0 <= i < |prefixes| && StartsWith(s, prefixes[i]) {
        var i :| 0 <= i < |prefixes| && StartsWith(s, prefixes[i]);
        if i > 0 {
          assert prefixes[1..][i - 1] == prefixes[i];
        }
      }
    }
  }

  /** The test of `remove_strike_words`: the lower-case word starts with one of
      the lower-cased strike words. */
  predicate Struck(w: string, cfg: Config) {
    AnyStartsWith(Lower(w), StrikePrefixes(cfg))
  }

  /** A word is struck exactly when, ignoring case, some strike word is a prefix
      of it. */
  lemma StruckMeaning(w: string, cfg: Config)
    ensures Struck(w, cfg) <==>
      exists i :: 0 <= i < |cfg.strikeWords| && StartsWith(Lower(w), Lower(cfg.strikeWords[i]))
  {
    AnyStartsWithMeaning(Lower(w), StrikePrefixes(cfg));
  }

  /** `remove_strike_words`: an order-preserving subsequence of the words that
      holds every unstruck word (with its repeats) and no struck one. */
  function RemoveStrikeWords(words: seq<string>, cfg: Config): (r: seq<string>)
    ensures SubsequenceOf(r, words) && |r| <= |words|
    ensures forall w :: w in r ==> w in words
    ensures forall i :: 0 <= i < |r| ==> !Struck(r[i], cfg)
    ensures forall w :: multiset(r)[w] == if Struck(w, cfg) then 0 else multiset(words)[w]
  {
    var keep := (w: string) => !Struck(w, cfg);
    FilterIsSubsequence(words, keep);
    FilterCounts(words, keep);
    Filter(words, keep)
  }

  // ----- deduplication -----

  /** What `remove_dupe_words` hands back: the surviving words, and the set of
      used words after it has been updated in place. */
  datatype Dedup = Dedup(kept: seq<string>, used: set<string>)

  /** The naive plural flip: drop a trailing lower-case 's', otherwise append
      one. The test looks at the word as written, so "DRUMS" becomes "DRUMSs". */
  function FlipPlural(w: string): (r: string)
    ensures |w| > 0 && w[|w| - 1] == 's' ==> r + "s" == w
    ensures !(|w| > 0 && w[|w| - 1] == 's') ==> r == w + "s"
  {
    if |w| > 0 && w[|w| - 1] == 's' then w[..|w| - 1] else w + "s"
  }

  /** Flipping twice gives the word back, except for words ending in "ss",
      which lose both. */
  lemma FlipPluralTwice(w: string)
    ensures !EndsWith(w, "ss") ==> FlipPlural(FlipPlural(w)) == w
    ensures EndsWith(w, "ss") ==> FlipPlural(FlipPlural(w)) == w[..|w| - 2]
  {
    if |w| > 0 && w[|w| - 1] == 's' {
      var v := w[..|w| - 1];
      if |v| > 0 && v[|v| - 1] == 's' {
        assert EndsWith(w, "ss");
      } else {
        assert !EndsWith(w, "ss");
        assert v + "s" == w;
      }
    } else {
      assert !EndsWith(w, "ss");
      assert (w + "s")[..|w|] == w;
    }
  }

  /** The lower-case forms of some words: what `set.update` adds for
      `[word.lower() for word in words]`. */
  function LowerForms(words: seq<string>): (r: set<string>)
    ensures forall i :: 0 <= i < |words| ==> Lower(words[i]) in r
  {
    if |words| == 0 then {} else {Lower(words[0])} + LowerForms(words[1..])
  }

  /** The words a kept word reserves: its lower-case form and the lower-case form
      of its plural flip. */
  function Reserved(words: seq<string>): (r: set<string>)
    ensures forall i :: 0 <= i < |words| ==>
              Lower(words[i]) in r && Lower(FlipPlural(words[i])) in r
  {
    if |words| == 0 then {}
    else {Lower(words[0]), Lower(FlipPlural(words[0]))} + Reserved(words[1..])
  }

  /** Everything in `Reserved(words)` comes from one of the words. */
  lemma {:induction false} ReservedOnly(words: seq<string>, x: string)
    requires x in Reserved(words)
    ensures exists i :: 0 <= i < |words| && (x == Lower(words[i]) || x == Lower(FlipPlural(words[i])))
    decreases |words|
  {
    if x != Lower(words[0]) && x != Lower(FlipPlural(words[0])) {
      ReservedOnly(words[1..], x);
      var i :| 0 <= i < |words[1..]| && (x == Lower(words[1..][i]) || x == Lower(FlipPlural(words[1..][i])));
      assert words[1..][i] == words[i + 1];
    }
  }

  /** The two `update` calls of `remove_dupe_words`, the first with the kept
      words and the second with their plural flips, add exactly what the kept
      words reserve. */
  function RecordUsed(used: set<string>, kept: seq<string>): (r: set<string>)
    ensures r == used + Reserved(kept)
  {
    RecordUsedReserves(kept);
    used + LowerForms(kept) + LowerForms(Map(kept, FlipPlural))
  }

  lemma {:induction false} RecordUsedReserves(kept: seq<string>)
    ensures LowerForms(kept) + LowerForms(Map(kept, FlipPlural)) == Reserved(kept)
    decreases |kept|
  {
    if |kept| > 0 {
      RecordUsedReserves(kept[1..]);
      assert Map(kept, FlipPlural)[1..] == Map(kept[1..], FlipPlural);
    }
  }

  /** `remove_dupe_words`: keeps, in order, the words whose lower-case form was
      not in the set on entry (membership is tested against the entry set, so a
      repeat within the same list survives), then adds the lower-case form of
      each survivor and of its plural flip to the set, which never shrinks. */
  function RemoveDupeWords(words: seq<string>, used: set<string>): (r: Dedup)
    ensures SubsequenceOf(r.kept, words) && |r.kept| <= |words|
    ensures forall i :: 0 <= i < |r.kept| ==> Lower(r.kept[i]) !in used
    ensures forall w :: multiset(r.kept)[w] == if Lower(w) in used then 0 else multiset(words)[w]
    ensures r.used == used + Reserved(r.kept)
  {
    var unused := (w: string) => Lower(w) !in used;
    FilterIsSubsequence(words, unused);
    FilterCounts(words, unused);
    var kept := Filter(words, unused);
    Dedup(kept, RecordUsed(used, kept))
  }

  /** Against an empty set nothing is a duplicate: every word is kept. */
  lemma DedupAgainstNothing(words: seq<string>)
    ensures RemoveDupeWords(words, {}).kept == words
  {
    var kept := RemoveDupeWords(words, {}).kept;
    assert multiset(kept) == multiset(words) by {
      forall w ensures multiset(kept)[w] == multiset(words)[w] {
        assert Lower(w) !in {};
      }
    }
    assert |kept| == |multiset(kept)| == |multiset(words)| == |words|;
    SubsequenceSameLength(kept, words);
  }

  /** A word kept by one deduplication blocks, in every later one against the
      updated set, any word equal to it or to its plural flip, ignoring case. */
  lemma DedupBlocksLater(words: seq<string>, used: set<string>, w: string, later: seq<string>)
    requires w in RemoveDupeWords(words, used).kept
    ensures var again := RemoveDupeWords(later, RemoveDupeWords(words, used).used);
      forall v :: v in again.kept ==> Lower(v) != Lower(w) && Lower(v) != Lower(FlipPlural(w))
  {
    var first := RemoveDupeWords(words, used);
    assert Lower(w) in first.used && Lower(FlipPlural(w)) in first.used;
    var again := RemoveDupeWords(later, first.used);
    forall v | v in again.kept
      ensures Lower(v) != Lower(w) && Lower(v) != Lower(FlipPlural(w))
    {
      var i :| 0 <= i < |again.kept| && again.kept[i] == v;
    }
  }

  /** Deduplicating the survivors again against the updated set leaves nothing. */
  lemma DedupAgainIsEmpty(words: seq<string>, used: set<string>)
    ensures var r := RemoveDupeWords(words, used);
      RemoveDupeWords(r.kept, r.used).kept == []
  {
    var r := RemoveDupeWords(words, used);
    var again := RemoveDupeWords(r.kept, r.used);
    forall w | w in r.kept ensures Lower(w) in r.used { }
    forall w ensures multiset(again.kept)[w] == 0 {
      if w in r.kept {
        assert Lower(w) in r.used;
      } else {
        assert multiset(r.kept)[w] == 0;
      }
    }
    assert multiset(again.kept) == multiset{};
  }

  // ----- formatting -----

  /** `format_word`: lower, upper or title case by WORD_FORMAT, and the word
      unchanged for any other setting. In title mode a letter is upper-cased at
      the start of a run of letters and lower-cased inside one. Only the case of
      letters changes. */
  function FormatWord(w: string, mode: string): (r: string)
    ensures |r| == |w|
    ensures forall i :: 0 <= i < |w| ==> r[i] == LowerChar(w[i]) || r[i] == UpperChar(w[i])
    ensures mode == "lower" ==> forall i :: 0 <= i < |w| ==> r[i] == LowerChar(w[i])
    ensures mode == "upper" ==> forall i :: 0 <= i < |w| ==> r[i] == UpperChar(w[i])
    ensures mode == "title" ==> forall i :: 0 <= i < |w| ==>
              r[i] == if i > 0 && IsLetter(w[i - 1]) then LowerChar(w[i]) else UpperChar(w[i])
    ensures mode != "lower" && mode != "upper" && mode != "title" ==> r == w
    ensures IsWord(w) ==> IsWord(r)
  {
    if mode == "lower" then Lower(w)
    else if mode == "upper" then Upper(w)
    else if mode == "title" then
      var t := Title(w);
      forall i | 0 <= i < |w|
        ensures t[i] == LowerChar(w[i]) || t[i] == UpperChar(w[i])
      {
        assert t[i] == if i > 0 && IsLetter(w[i - 1]) then LowerChar(w[i]) else UpperChar(w[i]);
      }
      t
    else
      assert forall i :: 0 <= i < |w| ==> w[i] == LowerChar(w[i]) || w[i] == UpperChar(w[i]);
      w
  }

  /** Formatting twice is formatting once, in every mode. */
  lemma FormatWordIdempotent(w: string, mode: string)
    ensures FormatWord(FormatWord(w, mode), mode) == FormatWord(w, mode)
  {
    if mode == "title" {
      TitleIdempotent(w);
    }
  }
}
