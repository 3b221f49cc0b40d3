/** The orchestration of `shorten_path`: the normalised path is cut into its
    first component (the pack folder), the middle folders and the last component
    (the file name); folders go through strike, dedup, format, join and truncate
    with one set of used words threaded left to right; the file name is only
    formatted and forced to ".wav"; the non-empty parts are joined with '/'. */
module Shortener {
  import opened Seqs
  import opened Text
  import opened Paths
  import opened Settings
  import opened Normalize
  import opened Words

  /** A cleaned folder name and the set of used words after cleaning it. */
  datatype Cleaned = Cleaned(name: string, used: set<string>)

  /** `[format_word(word) for word in words]`. */
  function FormatWords(words: seq<string>, mode: string): (r: seq<string>)
    ensures |r| == |words|
    ensures forall i :: 0 <= i < |words| ==> r[i] == FormatWord(words[i], mode)
  {
    Map(words, (w: string) => FormatWord(w, mode))
  }

  // ----- clean_folder -----

  /** Lines 93-104 of `clean_folder`: the words a folder name keeps before
      formatting, and the set of used words after deduplication. With
      DUPES_ELIMINATE_PATH every kept word is new; without it the folder loses
      all its words only when the strike filter already removed them all. */
  function FolderWords(folder: string, used: set<string>, cfg: Config): (r: Dedup)
    ensures used <= r.used
    ensures cfg.dupesEliminatePath ==> forall i :: 0 <= i < |r.kept| ==> Lower(r.kept[i]) !in used
  {
    var struck := RemoveStrikeWords(SplitWords(folder), cfg);
    var deduped := RemoveDupeWords(struck, used);
    var words :=
      if cfg.dupesEliminatePath then deduped.kept
      else if |deduped.kept| > 0 then deduped.kept
      else struck;
    Dedup(words, deduped.used)
  }

  /** Every word a folder keeps is a whitespace-free token of the folder name
      that no strike word prefixes. */
  lemma FolderWordsAreClean(folder: string, used: set<string>, cfg: Config)
    ensures var kept := FolderWords(folder, used, cfg).kept;
      forall i :: 0 <= i < |kept| ==> IsWord(kept[i]) && !Struck(kept[i], cfg) && kept[i] in SplitWords(folder)
  {
    var words := SplitWords(folder);
    var struck := RemoveStrikeWords(words, cfg);
    var kept := FolderWords(folder, used, cfg).kept;
    forall i | 0 <= i < |kept| ensures IsWord(kept[i]) && !Struck(kept[i], cfg) && kept[i] in words {
      var w := kept[i];
      var deduped := RemoveDupeWords(struck, used).kept;
      if cfg.dupesEliminatePath || |deduped| > 0 {
        assert multiset(deduped)[w] > 0;
      }
      var j :| 0 <= j < |struck| && struck[j] == w;
      assert multiset(words)[w] > 0;
      var k :| 0 <= k < |words| && words[k] == w;
    }
  }

  /** The fallback of lines 99-104: without DUPES_ELIMINATE_PATH, a folder whose
      words are all used already keeps its strike-filtered words; with it, the
      deduplicated (possibly empty) list is used. */
  lemma FolderWordsFallback(folder: string, used: set<string>, cfg: Config)
    ensures var struck := RemoveStrikeWords(SplitWords(folder), cfg);
      var deduped := RemoveDupeWords(struck, used);
      && FolderWords(folder, used, cfg).used == deduped.used
      && (cfg.dupesEliminatePath ==> FolderWords(folder, used, cfg).kept == deduped.kept)
      && (!cfg.dupesEliminatePath && deduped.kept == [] ==> FolderWords(folder, used, cfg).kept == struck)
      && (!cfg.dupesEliminatePath && deduped.kept != [] ==> FolderWords(folder, used, cfg).kept == deduped.kept)
  {
  }

  /** Without DUPES_ELIMINATE_PATH a folder loses all its words only when the
      strike filter already removed them all. */
  lemma FolderWordsKeepsSomething(folder: string, used: set<string>, cfg: Config)
    requires !cfg.dupesEliminatePath
    ensures FolderWords(folder, used, cfg).kept == [] <==> RemoveStrikeWords(SplitWords(folder), cfg) == []
  {
  }

  /** What every cleaned folder name satisfies: it fits MAX_DIR_LENGTH (a
      negative ceiling counts from the end, so it bounds nothing) and does not
      start with whitespace. */
  predicate FolderName(name: string, cfg: Config) {
    && (cfg.maxDirLength >= 0 ==> |name| <= cfg.maxDirLength)
    && (name == [] || !IsSpace(name[0]))
  }

  /** `clean_folder`: the kept words, formatted, joined with JOIN_SEP and cut to
      MAX_DIR_LENGTH. The name is a prefix of the full join, within the ceiling,
      and blank only when empty. */
  function CleanFolder(folder: string, used: set<string>, cfg: Config): (r: Cleaned)
    ensures FolderName(r.name, cfg)
    ensures used <= r.used
  {
    var fw := FolderWords(folder, used, cfg);
    var formatted := FormatWords(fw.kept, cfg.wordFormat);
    var joined := Join(formatted, cfg.joinSep);
    var name := SliceTo(joined, cfg.maxDirLength);
    assert |name| > 0 ==> !IsSpace(name[0]) by {
      if |name| > 0 {
        FolderWordsAreClean(folder, used, cfg);
        assert |formatted| > 0;
        assert IsWord(formatted[0]);
        assert name[0] == joined[0] == formatted[0][0];
      }
    }
    Cleaned(name, fw.used)
  }

  /** The cleaned name is the formatted words joined with JOIN_SEP, cut to the
      ceiling: the prefix of the join as long as the ceiling and the join allow
      (a negative ceiling counts from the end, as a Python slice does), and all
      of it when the ceiling allows. */
  lemma CleanFolderCutsJoin(folder: string, used: set<string>, cfg: Config)
    ensures var fw := FolderWords(folder, used, cfg);
      var joined := Join(FormatWords(fw.kept, cfg.wordFormat), cfg.joinSep);
      var r := CleanFolder(folder, used, cfg);
      && r.used == fw.used
      && StartsWith(joined, r.name)
      && (cfg.maxDirLength >= 0 ==> |r.name| == Min(cfg.maxDirLength, |joined|))
      && (cfg.maxDirLength < 0 ==> |r.name| == Max(0, |joined| + cfg.maxDirLength))
      && (cfg.maxDirLength >= |joined| ==> r.name == joined)
  {
  }

  /** A cleaned folder name is non-blank exactly when it is non-empty, so the
      whitespace test of `clean_path` drops only empty names. */
  lemma CleanFolderBlankIsEmpty(folder: string, used: set<string>, cfg: Config)
    ensures var name := CleanFolder(folder, used, cfg).name;
      HasNonSpace(name) <==> name != []
  {
    var name := CleanFolder(folder, used, cfg).name;
    if name != [] {
      assert !IsSpace(name[0]);
    }
  }

  // ----- clean_path -----

  /** The cleaned middle folders, in order, and the set after the last of them. */
  datatype CleanedFolders = CleanedFolders(names: seq<string>, used: set<string>)

  /** The loop of lines 111-112, for any cleaning step: each folder is cleaned
      with the set left by the folders before it. */
  function FoldFolders(folders: seq<string>, used: set<string>, step: (string, set<string>) -> Cleaned): (r: CleanedFolders)
    ensures |r.names| == |folders|
    decreases |folders|
  {
    if |folders| == 0 then CleanedFolders([], used)
    else
      var first := step(folders[0], used);
      var rest := FoldFolders(folders[1..], first.used, step);
      CleanedFolders([first.name] + rest.names, rest.used)
  }

  /** Folder `i` is cleaned against exactly the set left by folders `0..i`. */
  lemma {:induction false} FoldFoldersLeftToRight(folders: seq<string>, used: set<string>,
                                                  step: (string, set<string>) -> Cleaned, i: nat)
    requires i < |folders|
    ensures FoldFolders(folders, used, step).names[i]
         == step(folders[i], FoldFolders(folders[..i], used, step).used).name
    decreases i
  {
    var first := step(folders[0], used);
    if i == 0 {
      assert folders[..0] == [];
    } else {
      FoldFoldersLeftToRight(folders[1..], first.used, step, i - 1);
      assert folders[1..][i - 1] == folders[i];
      assert folders[..i][0] == folders[0];
      assert folders[..i][1..] == folders[1..][..i - 1];
    }
  }

  /** A step that only adds to the set and whose names all pass `ok` makes a loop
      with the same two properties. */
  lemma {:induction false} FoldFoldersKeeps(folders: seq<string>, used: set<string>,
                                            step: (string, set<string>) -> Cleaned, ok: string -> bool)
    requires forall f, u :: ok(step(f, u).name) && u <= step(f, u).used
    ensures var r := FoldFolders(folders, used, step);
      used <= r.used && forall i :: 0 <= i < |r.names| ==> ok(r.names[i])
    decreases |folders|
  {
    if |folders| > 0 {
      var first := step(folders[0], used);
      FoldFoldersKeeps(folders[1..], first.used, step, ok);
      var rest := FoldFolders(folders[1..], first.used, step);
      var names := [first.name] + rest.names;
      assert forall i :: 0 < i < |names| ==> names[i] == rest.names[i - 1];
    }
  }

  /** `clean_folder` as the step of the loop. */
  function CleanStep(cfg: Config): (step: (string, set<string>) -> Cleaned)
    ensures forall f, u :: FolderName(step(f, u).name, cfg) && u <= step(f, u).used
  {
    (f, u) => CleanFolder(f, u, cfg)
  }

  /** Lines 111-112: the middle folders cleaned in order, one name per folder,
      each a proper folder name, with a set that only grows. */
  function CleanFolders(folders: seq<string>, used: set<string>, cfg: Config): (r: CleanedFolders)
    ensures |r.names| == |folders|
    ensures used <= r.used
    ensures forall i :: 0 <= i < |r.names| ==> FolderName(r.names[i], cfg)
  {
    FoldFoldersKeeps(folders, used, CleanStep(cfg), (n: string) => FolderName(n, cfg));
    FoldFolders(folders, used, CleanStep(cfg))
  }

  /** Folder `i` is cleaned against exactly the set left by folders `0..i`:
      words are reserved strictly from left to right. */
  lemma CleanFoldersLeftToRight(folders: seq<string>, used: set<string>, cfg: Config, i: nat)
    requires i < |folders|
    ensures CleanFolders(folders, used, cfg).names[i]
         == CleanFolder(folders[i], CleanFolders(folders[..i], used, cfg).used, cfg).name
  {
    FoldFoldersLeftToRight(folders, used, CleanStep(cfg), i);
  }

  /** The same threading for the set: the set before folder `i` contains the set
      the loop started with. */
  lemma CleanFoldersUsedPrefix(folders: seq<string>, used: set<string>, cfg: Config, i: nat)
    requires i <= |folders|
    ensures used <= CleanFolders(folders[..i], used, cfg).used
  {
  }

  /** Every name the loop produces is non-blank exactly when it is non-empty. */
  lemma CleanFoldersBlankIsEmpty(folders: seq<string>, used: set<string>, cfg: Config)
    ensures var names := CleanFolders(folders, used, cfg).names;
      forall i :: 0 <= i < |names| ==> (HasNonSpace(names[i]) <==> names[i] != [])
  {
    var names := CleanFolders(folders, used, cfg).names;
    forall i | 0 <= i < |names| ensures HasNonSpace(names[i]) <==> names[i] != [] {
      if names[i] != [] {
        assert FolderName(names[i], cfg);
        assert !IsSpace(names[i][0]);
      }
    }
  }

  /** Line 114: the names that hold something other than whitespace, in order. */
  function MiddleFolders(names: seq<string>): (r: seq<string>)
    ensures SubsequenceOf(r, names)
    ensures forall i :: 0 <= i < |r| ==> HasNonSpace(r[i])
    ensures forall n :: multiset(r)[n] == if HasNonSpace(n) then multiset(names)[n] else 0
    ensures r == [] <==> forall i :: 0 <= i < |names| ==> !HasNonSpace(names[i])
  {
    FilterIsSubsequence(names, HasNonSpace);
    FilterCounts(names, HasNonSpace);
    FilterEmpty(names, HasNonSpace);
    Filter(names, HasNonSpace)
  }

  /** Joining non-empty parts gives the empty string only for no parts at all. */
  lemma JoinNonEmptyParts(parts: seq<string>, sep: string)
    requires forall i :: 0 <= i < |parts| ==> parts[i] != []
    ensures Join(parts, sep) == [] <==> parts == []
  {
    if parts != [] {
      assert StartsWith(Join(parts, sep), parts[0]);
    }
  }

  /** `clean_path`: the middle folders cleaned left to right, the non-blank ones
      joined with '/', and the set after all of them. */
  function CleanPath(folders: seq<string>, used: set<string>, cfg: Config): (r: Cleaned)
    ensures r.used == CleanFolders(folders, used, cfg).used
    ensures used <= r.used
  {
    var cleaned := CleanFolders(folders, used, cfg);
    Cleaned(Join(MiddleFolders(cleaned.names), [Sep]), cleaned.used)
  }

  /** The joined middle is empty exactly when every middle folder cleaned to
      nothing. */
  lemma CleanPathEmpty(folders: seq<string>, used: set<string>, cfg: Config)
    ensures var names := CleanFolders(folders, used, cfg).names;
      CleanPath(folders, used, cfg).name == [] <==> forall i :: 0 <= i < |folders| ==> names[i] == []
  {
    var names := CleanFolders(folders, used, cfg).names;
    var kept := MiddleFolders(names);
    CleanFoldersBlankIsEmpty(folders, used, cfg);
    assert forall i :: 0 <= i < |kept| ==> kept[i] != [] by {
      forall i | 0 <= i < |kept| ensures kept[i] != [] {
        assert HasNonSpace(kept[i]);
      }
    }
    JoinNonEmptyParts(kept, [Sep]);
  }

  // ----- clean_file and file_to_wav -----

  /** The formatted words of a name are still words, so joining them with single
      spaces and splitting again gives them back. */
  lemma FormattedWordsRoundTrip(stem: string, mode: string)
    ensures var words := FormatWords(SplitWords(stem), mode);
      SplitWords(Join(words, " ")) == words
  {
    var words := FormatWords(SplitWords(stem), mode);
    assert forall i :: 0 <= i < |words| ==> IsWord(words[i]);
    SplitWordsJoin(words);
  }

  /** `clean_file`: the words of the name's stem, formatted and joined with
      JOIN_SEP, followed by the name's suffix. The set of used words is passed in
      but not consulted: file names are never deduplicated. */
  function CleanFile(file: string, used: set<string>, cfg: Config): (r: string)
    ensures EndsWith(r, StemAndSuffix(file).ext)
    ensures cfg.joinSep == " " ==>
      SplitWords(r[..|r| - |StemAndSuffix(file).ext|])
        == FormatWords(SplitWords(StemAndSuffix(file).stem), cfg.wordFormat)
  {
    var parts := StemAndSuffix(file);
    var words := FormatWords(SplitWords(parts.stem), cfg.wordFormat);
    var joined := Join(words, cfg.joinSep);
    FormattedWordsRoundTrip(parts.stem, cfg.wordFormat);
    assert (joined + parts.ext)[..|joined|] == joined;
    assert (joined + parts.ext)[|joined|..] == parts.ext;
    joined + parts.ext
  }

  /** A stem cut as by `stem[:maxFile - 4]`, followed by ".wav". */
  function CutToWav(stem: string, maxFile: int): (r: string)
    ensures EndsWith(r, ".wav")
    ensures StartsWith(stem, r[..|r| - 4])
    ensures maxFile >= 4 ==> |r| == Min(maxFile, |stem| + 4)
    ensures maxFile < 4 ==> |r| == Max(0, |stem| + maxFile - 4) + 4
    ensures |stem| <= maxFile - 4 ==> r == stem + ".wav"
  {
    var cut := SliceTo(stem, maxFile - 4);
    var r := cut + ".wav";
    assert r[..|cut|] == cut;
    assert r[|cut|..] == ".wav";
    r
  }

  /** `file_to_wav`: the stem cut to MAX_FILE_LENGTH - 4 characters, then ".wav".
      The result always ends in ".wav" after a prefix of the stem of exactly the
      length the slice keeps (counted from the end when MAX_FILE_LENGTH - 4 is
      negative), so it fills the ceiling when the stem is long and keeps a short
      stem whole. */
  function FileToWav(file: string, cfg: Config): (r: string)
    ensures var stem := StemAndSuffix(file).stem;
      && EndsWith(r, ".wav")
      && StartsWith(stem, r[..|r| - 4])
      && (cfg.maxFileLength >= 4 ==> |r| <= cfg.maxFileLength)
      && (cfg.maxFileLength >= 4 ==> |r| == Min(cfg.maxFileLength, |stem| + 4))
      && (cfg.maxFileLength < 4 ==> |r| == Max(0, |stem| + cfg.maxFileLength - 4) + 4)
      && (|stem| <= cfg.maxFileLength - 4 ==> r == stem + ".wav")
  {
    var stem := StemAndSuffix(file).stem;
    CutToWav(stem, cfg.maxFileLength)
  }

  // ----- shorten_path -----

  /** Lines 74-78: first component, middle components, last component. */
  datatype Segments = Segments(pack: string, middle: seq<string>, file: string)

  /** Cutting a path at '/': without a separator the pack folder and the file are
      the same string; otherwise joining the pieces with '/' gives the path back. */
  function Decompose(path: string): (r: Segments)
    ensures Sep !in path ==> r.pack == path && r.file == path && r.middle == []
    ensures Sep in path ==> Join([r.pack] + r.middle + [r.file], [Sep]) == path
    ensures Sep !in r.pack && Sep !in r.file
    ensures forall i :: 0 <= i < |r.middle| ==> Sep !in r.middle[i]
  {
    var parts := Split(path, Sep);
    var n := |parts|;
    var first := parts[0];
    var middle := if n >= 2 then parts[1..n - 1] else [];
    assert Sep in path ==> [parts[0]] + middle + [parts[n - 1]] == parts by {
      if Sep in path {
        assert n >= 2 by {
          assert n == 1 ==> path == first;
        }
      }
    }
    Segments(parts[0], middle, parts[n - 1])
  }

  /** The three cleaned parts of a path before they are joined. */
  datatype Parts = Parts(pack: string, middle: string, file: string)

  /** Lines 62-85: normalise, decompose, and clean the parts with a set of used
      words that starts empty, so the pack folder's words are reserved first. */
  function ShortenParts(path: string, cfg: Config): (r: Parts)
    ensures EndsWith(r.file, ".wav")
    ensures cfg.maxDirLength >= 0 ==> |r.pack| <= cfg.maxDirLength
    ensures cfg.maxFileLength >= 4 ==> |r.file| <= cfg.maxFileLength
  {
    var segments := Decompose(NormalizePath(path, cfg));
    var pack := CleanFolder(segments.pack, {}, cfg);
    var middle := CleanPath(segments.middle, pack.used, cfg);
    var file := FileToWav(CleanFile(segments.file, middle.used, cfg), cfg);
    Parts(pack.name, middle.name, file)
  }

  predicate NonEmpty(part: string) { part != [] }

  /** Line 89: `os.sep.join([part for part in parts if part])`. */
  function JoinNonEmpty(parts: seq<string>): string {
    Join(Filter(parts, NonEmpty), [Sep])
  }

  /** The parts of three that survive the `if part` test, the last one being present. */
  lemma FilterNonEmptyThree(a: string, b: string, c: string)
    requires c != []
    ensures Filter([a, b, c], NonEmpty)
         == (if a == [] then [] else [a]) + (if b == [] then [] else [b]) + [c]
  {
    assert [a, b, c] == [a] + [b] + [c];
    FilterAppend([a] + [b], [c], NonEmpty);
    FilterAppend([a], [b], NonEmpty);
    FilterOne(a, NonEmpty);
    FilterOne(b, NonEmpty);
    FilterOne(c, NonEmpty);
  }

  /** Joining up to three parts, the last always present, with '/'. */
  lemma JoinUpToThree(a: string, b: string, c: string)
    ensures Join((if a == [] then [] else [a]) + (if b == [] then [] else [b]) + [c], [Sep])
         == (if a == [] then [] else a + [Sep]) + (if b == [] then [] else b + [Sep]) + c
  {
    assert [b, c][1..] == [c];
    assert [a, c][1..] == [c];
    assert [a, b, c][1..] == [b, c];
    var bc := if b == [] then c else b + [Sep] + c;
    if a != [] && b != [] {
      assert Join([a, b, c], [Sep]) == a + [Sep] + bc;
    }
  }

  /** With a non-empty last part, joining the non-empty parts of three means
      each present part is followed by a separator, and empty ones vanish. */
  lemma JoinNonEmptyThree(a: string, b: string, c: string)
    requires c != []
    ensures JoinNonEmpty([a, b, c])
         == (if a == [] then [] else a + [Sep]) + (if b == [] then [] else b + [Sep]) + c
  {
    FilterNonEmptyThree(a, b, c);
    JoinUpToThree(a, b, c);
  }

  /** `shorten_path`: the cleaned pack folder, middle folders and file name,
      each followed by '/' when present, the file name always present and
      ending in ".wav". */
  function ShortenPath(path: string, cfg: Config): (r: string)
    ensures var p := ShortenParts(path, cfg);
      r == (if p.pack == [] then [] else p.pack + [Sep])
         + (if p.middle == [] then [] else p.middle + [Sep])
         + p.file
    ensures EndsWith(r, ".wav")
  {
    var p := ShortenParts(path, cfg);
    JoinNonEmptyThree(p.pack, p.middle, p.file);
    var front := (if p.pack == [] then [] else p.pack + [Sep])
      + (if p.middle == [] then [] else p.middle + [Sep]);
    EndsWithAppend(front, p.file, ".wav");
    JoinNonEmpty([p.pack, p.middle, p.file])
  }

  // ----- properties of the whole pipeline -----

  /** The set starts empty on every call, so deduplication never removes a word
      of the pack folder: it keeps exactly its strike-filtered words. */
  lemma PackFolderNeverDeduped(folder: string, cfg: Config)
    ensures FolderWords(folder, {}, cfg).kept == RemoveStrikeWords(SplitWords(folder), cfg)
  {
    DedupAgainstNothing(RemoveStrikeWords(SplitWords(folder), cfg));
  }

  /** With DUPES_ELIMINATE_PATH, no word kept by a middle folder repeats, up to
      case and the plural flip, a word kept by the pack folder. `pack` and
      `middle` are the folders `ShortenParts` cleans, for any path. */
  lemma PackWordsReservedFirst(pack: string, middle: seq<string>, cfg: Config, i: nat)
    requires cfg.dupesEliminatePath
    requires i < |middle|
    ensures var packUsed := CleanFolder(pack, {}, cfg).used;
      var before := CleanFolders(middle[..i], packUsed, cfg).used;
      forall w, v :: w in FolderWords(pack, {}, cfg).kept && v in FolderWords(middle[i], before, cfg).kept ==>
        Lower(v) != Lower(w) && Lower(v) != Lower(FlipPlural(w))
  {
    var packUsed := CleanFolder(pack, {}, cfg).used;
    CleanFoldersUsedPrefix(middle, packUsed, cfg, i);
    var before := CleanFolders(middle[..i], packUsed, cfg).used;
    var kept := FolderWords(middle[i], before, cfg).kept;
    forall w, v | w in FolderWords(pack, {}, cfg).kept && v in kept
      ensures Lower(v) != Lower(w) && Lower(v) != Lower(FlipPlural(w))
    {
      var k :| 0 <= k < |kept| && kept[k] == v;
      assert Lower(v) !in before;
    }
  }

  /** Lines 81-84 for every path: the pack folder is cleaned against a set that
      starts empty, the middle folders against the set the pack folder left, and
      the file name without consulting the set at all. */
  lemma ShortenPartsStages(path: string, cfg: Config)
    ensures var s := Decompose(NormalizePath(path, cfg));
      var pack := CleanFolder(s.pack, {}, cfg);
      ShortenParts(path, cfg)
        == Parts(pack.name, CleanPath(s.middle, pack.used, cfg).name, FileToWav(CleanFile(s.file, {}, cfg), cfg))
  {
  }

  /** On a whole path with DUPES_ELIMINATE_PATH: no word a middle folder keeps
      repeats, up to case and the plural flip, a word the pack folder keeps. */
  lemma ShortenPathReservesPackWords(path: string, cfg: Config)
    ensures var s := Decompose(NormalizePath(path, cfg));
      var packUsed := CleanFolder(s.pack, {}, cfg).used;
      cfg.dupesEliminatePath ==>
        forall i, w, v ::
          (0 <= i < |s.middle| && w in FolderWords(s.pack, {}, cfg).kept
           && v in FolderWords(s.middle[i], CleanFolders(s.middle[..i], packUsed, cfg).used, cfg).kept) ==>
          Lower(v) != Lower(w) && Lower(v) != Lower(FlipPlural(w))
  {
    var s := Decompose(NormalizePath(path, cfg));
    if cfg.dupesEliminatePath {
      forall i | 0 <= i < |s.middle| {
        PackWordsReservedFirst(s.pack, s.middle, cfg, i);
      }
    }
  }

  /** A path without a separator yields two components: the same string is
      cleaned once as the pack folder and once as the file name. */
  lemma NoSeparatorTwoComponents(path: string, cfg: Config)
    requires Sep !in NormalizePath(path, cfg)
    ensures var n := NormalizePath(path, cfg);
      && ShortenParts(path, cfg).pack == CleanFolder(n, {}, cfg).name
      && ShortenParts(path, cfg).middle == []
      && ShortenParts(path, cfg).file == FileToWav(CleanFile(n, {}, cfg), cfg)
  {
    var n := NormalizePath(path, cfg);
    var pack := CleanFolder(n, {}, cfg);
    var middle := CleanPath([], pack.used, cfg);
    assert middle.name == [];
    assert CleanFile(n, middle.used, cfg) == CleanFile(n, {}, cfg);
  }
}
