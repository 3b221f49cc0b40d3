# M8 sample organizer: path shortener

This project models the path-shortening core of the M8 sample organizer in
Dafny. The organizer copies a library of audio samples to an M8 tracker's
card. On the way it rewrites each source path into a short one. It removes
the source root, turns split punctuation into spaces and deletes fill
punctuation. It drops "strike" words, removes words already used higher up
in the same path, and re-cases and joins the remaining words. It cuts every
folder name and the file name to a length ceiling and forces a ".wav"
extension.

Everything is pure functions over `string` (`seq<char>`). The configuration
is one immutable `Config` record (`settings.dfy`) instead of module-level
globals. The program mutates one set of used words in place; here that set
is passed in and handed back explicitly.

Modules, in pipeline order:

- `Text` (`text.dfy`): the pieces of Python's `str` that the program uses.
  These are `isspace`, ASCII `lower`/`upper`/`title`, `startswith`,
  `sep.join`, `split(c)`, `split()` and the slice `s[:n]`.
- `Seqs` (`seqs.dfy`): list comprehensions (`Filter`, `Map`) and the
  order-preserving subsequence relation.
- `Paths` (`paths.dfy`): `strip_path_prefix`, `os.path.splitext`, and
  `pathlib`'s `name`, `stem` and `suffix`.
- `Normalize` (`normalize.dfy`): the punctuation clean-up at the start of
  `shorten_path`.
- `Words` (`words.dfy`): `remove_strike_words`, `remove_dupe_words` with its
  plural flip, and `format_word`.
- `Shortener` (`shortener.dfy`): `clean_folder`, `clean_path`, `clean_file`,
  `file_to_wav` and `shorten_path`.
- `Examples` (`examples.dfy`): concrete instances of the word rules.

Where a reader might expect something else, the model follows the code:

- The set of used words is created fresh in every call of `shorten_path`
  (line 81). Deduplication therefore only ever acts within one path, and the
  first folder (the "pack") is never deduplicated (`PackFolderNeverDeduped`).
- DUPES_ELIMINATE_PATH selects a real fallback (lines 99-104). When it is
  false and deduplication empties a folder, the `elif` does not fire, so the
  strike-filtered words are kept (`FolderWordsFallback`).
- Fill punctuation is deleted, not replaced by a space. "Kick-Drum(1)"
  therefore becomes the words "Kick" and "Drum1": the digit joins the word
  before it. "Drum Loops/Kick-Drum(1).wav" shortens to "drum/kick_drum1.wav"
  with a JOIN_SEP of "_" and lower case, not "kick_drum_1".
- "Drum Loops/Snare Drums.wav" shortens to "drum/snare_drums.wav". File names
  are never deduplicated, so "Drums" survives in the file name even though
  "Drum" is reserved by the folder.
- The plural test looks at the word as written and wants a lower-case 's'
  (line 141). "DRUMS" therefore reserves "drumss", not "drum"
  (`FlipPluralExamples`).
- A path without a separator yields one component that serves both as pack
  folder and as file name (lines 74-78). It is cleaned twice
  (`NoSeparatorTwoComponents`), so "Kick.wav" becomes "kick.wav/kick.wav".
- `os.path.splitext` and `pathlib` are modelled with their real leading-dot
  rules, not a plain last-dot split. A leading dot does not start an
  extension. A `pathlib` suffix needs a dot that is neither the first nor the
  last character of the name.

## Model

| member | source | states |
|---|---|---|
| Paths.StripPathPrefix | src/m8-sample-organizer.py:48-59 | If the path starts with the prefix (a separator appended when missing), prefix plus result rebuilds the path; otherwise the path comes back unchanged |
| Paths.StripPathPrefixUnderRoot | src/m8-sample-organizer.py:48-59 | Stripping the root from a path built under that root returns the relative part, whether or not the root ends in a separator |
| Paths.SplitExt | src/m8-sample-organizer.py:62 | Stem plus extension is the path. A non-empty extension starts with '.' and holds no other dot and no separator |
| Paths.SplitExtFindsExtension | src/m8-sample-organizer.py:62 | There is an extension exactly when the last component has a dot after a non-dot character |
| Paths.StemAndSuffix | src/m8-sample-organizer.py:119-123 | Stem plus suffix is the last path component. A non-empty suffix has at least two characters, starts with '.', has no further dot, and follows a non-empty stem |
| Paths.StemAndSuffixFindsSuffix | src/m8-sample-organizer.py:119-123 | There is a suffix exactly when the name's last dot is neither its first nor its last character |
| Normalize.SplitPass | src/m8-sample-organizer.py:65-66 | Each character that is split punctuation becomes a space and every other character is kept, position by position |
| Normalize.FillPassDeletes | src/m8-sample-organizer.py:68-69 | The chain of `replace(c, "")` calls equals deleting every fill character in one pass |
| Normalize.DeleteCharsCounts | src/m8-sample-organizer.py:68-69 | Deletion keeps no occurrence of a character of the set and every occurrence of the other characters |
| Normalize.NormalizeStem | src/m8-sample-organizer.py:62-71 | The cleaned stem holds no fill character, and the only split character left in it is the space |
| Normalize.NormalizeStemMeaning | src/m8-sample-organizer.py:62-71 | The cleaned stem equals: map each split character to a space, then drop the fill characters |
| Normalize.NormalizePath | src/m8-sample-organizer.py:62-71 | The result is the cleaned stem of `os.path.splitext` followed by its extension verbatim; no fill character, and no split character but the space, comes before the extension |
| Normalize.NormalizePathMeaning | src/m8-sample-organizer.py:62-71 | The normalised path equals: on the part before the extension, map each split character to a space and drop the fill characters; then the extension unchanged |
| Words.AnyStartsWithMeaning | src/m8-sample-organizer.py:129 | The `any(...startswith...)` generator is true exactly when some prefix in the list starts the string |
| Words.StruckMeaning | src/m8-sample-organizer.py:20 | A word is struck exactly when, ignoring case, some configured strike word is a prefix of it |
| Words.RemoveStrikeWords | src/m8-sample-organizer.py:128-129 | The result is an order-preserving subsequence of the input. It holds no struck word and every occurrence of every unstruck word |
| Words.FlipPlural | src/m8-sample-organizer.py:140-144 | A word ending in a lower-case 's' is the result plus "s"; any other word gets an "s" appended |
| Words.FlipPluralTwice | src/m8-sample-organizer.py:140-144 | Flipping the plural twice restores the word, except that a word ending in "ss" loses both letters |
| Words.RemoveDupeWords | src/m8-sample-organizer.py:131-148 | Kept words form an order-preserving subsequence whose lower-case forms were not in the entry set. Every occurrence of such a word is kept, repeats included. The new set is the old one plus each kept word's lower-case form and that of its plural flip |
| Words.ReservedOnly | src/m8-sample-organizer.py:136-146 | The set grows by nothing else than the kept words' lower-case forms and their flips |
| Words.RecordUsed | src/m8-sample-organizer.py:136-146 | The two `update` calls add exactly the forms the kept words reserve |
| Words.DedupAgainstNothing | src/m8-sample-organizer.py:133 | Against an empty set every word is kept, in order |
| Words.DedupBlocksLater | src/m8-sample-organizer.py:133-146 | A kept word blocks, in any later deduplication, every word equal to it or to its plural flip ignoring case ("drum" blocks "drums", "bus" blocks "bu") |
| Words.DedupAgainIsEmpty | src/m8-sample-organizer.py:133-146 | Deduplicating the survivors again against the updated set leaves nothing |
| Words.FormatWord | src/m8-sample-organizer.py:150-157 | "lower" lower-cases and "upper" upper-cases every character. "title" upper-cases a letter that starts a run of letters and lower-cases the others. Any other mode leaves the word unchanged. Length is kept, and a whitespace-free word stays whitespace-free |
| Words.FormatWordIdempotent | src/m8-sample-organizer.py:150-157 | Formatting twice equals formatting once, in every mode |
| Text.TitleIdempotent | src/m8-sample-organizer.py:155-156 | Title-casing a title-cased string changes nothing |
| Text.SplitWords | src/m8-sample-organizer.py:93 | Every token is non-empty and free of whitespace, and there are no tokens exactly when the string is blank (its full meaning is `Text.SplitWordsMeaning`) |
| Text.SplitWordsMeaning | src/m8-sample-organizer.py:93 | `split()` returns a list of words exactly when the string is those words set in whitespace-only gaps, with a non-empty gap between neighbours: the maximal runs of non-whitespace, in order |
| Text.SplitWordsHasLayout | src/m8-sample-organizer.py:121 | The tokens of `split()`, with the whitespace runs around them, rebuild the string |
| Text.SplitWordsUnique | src/m8-sample-organizer.py:121 | Any way of writing the string as words in whitespace gaps, with a non-empty gap between neighbours, gives exactly the tokens of `split()` |
| Text.SplitWordsJoin | src/m8-sample-organizer.py:93 | Splitting on whitespace what was joined with single spaces returns the words |
| Seqs.FilterCounts | src/m8-sample-organizer.py:129 | A list comprehension with a condition keeps every occurrence of a passing element and none of a failing one |
| Seqs.FilterIsSubsequence | src/m8-sample-organizer.py:129 | A list comprehension with a condition keeps the order of what it keeps |
| Text.SplitJoin | src/m8-sample-organizer.py:74 | Splitting on '/' what was joined with '/' returns the parts |
| Text.Split | src/m8-sample-organizer.py:74 | There is always at least one part, no part holds the separator, and joining the parts with it rebuilds the string |
| Text.SliceTo | src/m8-sample-organizer.py:108 | The slice `s[:n]` is a prefix of the string of length min(n, len) for n >= 0, and max(0, len + n) for negative n |
| Shortener.FolderWords | src/m8-sample-organizer.py:92-104 | The set only grows, and with DUPES_ELIMINATE_PATH no kept word was in use, ignoring case, on entry |
| Shortener.FolderWordsKeepsSomething | src/m8-sample-organizer.py:99-104 | Without DUPES_ELIMINATE_PATH a folder keeps no word only when the strike filter removed them all |
| Shortener.FolderWordsAreClean | src/m8-sample-organizer.py:93-95 | Every word a folder keeps is one of the tokens `split()` finds in the folder name, is free of whitespace, and is not prefixed by any strike word |
| Shortener.FolderWordsFallback | src/m8-sample-organizer.py:97-104 | The set is the one deduplication leaves. With the flag the deduplicated list is used. Without it, that list is used when non-empty, and the strike-filtered list otherwise |
| Shortener.CleanFolder | src/m8-sample-organizer.py:92-108 | The name fits MAX_DIR_LENGTH when that is not negative and does not start with whitespace; the set only grows |
| Shortener.CleanFolderCutsJoin | src/m8-sample-organizer.py:106-108 | The name is the prefix of the formatted words joined with JOIN_SEP that `[:MAX_DIR_LENGTH]` keeps: min(ceiling, join length) characters for a non-negative ceiling, max(0, length + ceiling) for a negative one, so all of it when the ceiling allows; the set is the folder's |
| Shortener.CleanFolderBlankIsEmpty | src/m8-sample-organizer.py:108-114 | A cleaned folder name is blank exactly when it is empty |
| Shortener.FoldFoldersLeftToRight | src/m8-sample-organizer.py:111-112 | In the loop, folder i is cleaned against exactly the set left by folders 0 to i-1 |
| Shortener.FoldFoldersKeeps | src/m8-sample-organizer.py:111-112 | A step that only adds to the set and yields names with some property makes a loop whose set only grows and whose names all have it |
| Shortener.CleanFolders | src/m8-sample-organizer.py:111-112 | One name per folder, each within the ceiling and not starting with whitespace; the set only grows |
| Shortener.CleanFoldersLeftToRight | src/m8-sample-organizer.py:111-112 | Folder i is cleaned by `clean_folder` against exactly the set left by folders 0 to i-1 |
| Shortener.MiddleFolders | src/m8-sample-organizer.py:114 | The result is an order-preserving subsequence of the non-blank names with every occurrence kept, and it is empty exactly when every name is blank |
| Shortener.CleanPath | src/m8-sample-organizer.py:110-116 | The set is the one the loop leaves, so it only grows |
| Shortener.CleanPathEmpty | src/m8-sample-organizer.py:110-116 | The joined middle is empty exactly when every middle folder cleaned to nothing |
| Shortener.CleanFile | src/m8-sample-organizer.py:118-123 | The name ends in the original suffix. With a single-space JOIN_SEP, the part before the suffix splits back into the stem's formatted words |
| Shortener.FileToWav | src/m8-sample-organizer.py:125-126 | The result is ".wav" after the prefix of the stem that `[:MAX_FILE_LENGTH - 4]` keeps: its length is min(MAX_FILE_LENGTH, stem length + 4) when the ceiling is at least 4, and the negative-slice length plus 4 otherwise. A stem that fits is kept whole |
| Shortener.Decompose | src/m8-sample-organizer.py:74-78 | Without a separator, pack and file are the whole path. Otherwise pack, middle and file joined with '/' rebuild it. No piece holds a separator |
| Shortener.ShortenParts | src/m8-sample-organizer.py:61-85 | The file part ends in ".wav" and fits its ceiling; the pack part fits the folder ceiling (how each part comes from the path is `ShortenPartsStages`) |
| Shortener.JoinNonEmptyThree | src/m8-sample-organizer.py:88-89 | Joining the non-empty parts puts '/' after each present part and drops the empty ones |
| Shortener.ShortenPath | src/m8-sample-organizer.py:61-90 | The result is the pack and the middle, each followed by '/' when present, then the file name; it always ends in ".wav" |
| Shortener.PackFolderNeverDeduped | src/m8-sample-organizer.py:81-83 | The set starts empty, so the pack folder keeps exactly its strike-filtered words |
| Shortener.PackWordsReservedFirst | src/m8-sample-organizer.py:81-84 | For any pack folder and middle folders, with DUPES_ELIMINATE_PATH no middle folder keeps a word that equals, ignoring case, a pack word or its plural flip |
| Shortener.ShortenPartsStages | src/m8-sample-organizer.py:74-85 | For every path: the pack folder is cleaned against an empty set, the middle folders against the set the pack folder left, and the file name with no set at all, so it is never deduplicated |
| Shortener.ShortenPathReservesPackWords | src/m8-sample-organizer.py:74-85 | For every path with DUPES_ELIMINATE_PATH, no middle folder keeps a word that equals, ignoring case, a word kept by the pack folder or its plural flip |
| Shortener.NoSeparatorTwoComponents | src/m8-sample-organizer.py:74-85 | A path without a separator is cleaned once as the pack folder and once as the file name, with an empty middle |

## Left out

- `main` is not modelled: the walk over the source folder, the printing, the interactive `input()` loop for paths at or above MAX_OUTPUT_LENGTH, the SKIP_EXISTING test and the final count are I/O.
- `get_files_by_type` is not modelled: it walks the file system.
- `convert_wav_to_16bit` is not modelled: it creates directories and runs ffmpeg.
- Loading `config.yml` is not modelled. The values the shortener reads are the `Config` record; SRC_FOLDER is the `prefix` argument of `StripPathPrefix`.
- Case mapping is ASCII only. Python's `lower`, `upper` and `title` also map non-ASCII letters and some characters to several characters; the model leaves every non-ASCII character unchanged. `title` also counts non-ASCII cased letters when it decides where a word starts ("éA".title() is "Éa"); the model counts only ASCII letters and gives "éA".
- `str.isspace` is modelled by its fixed list of whitespace characters; the `\s` of `re.sub` in `clean_path` is taken to mean the same set.
- `pathlib` normalisation is not modelled: repeated or trailing separators are not collapsed. The only strings handed to `pathlib` here contain no separator unless JOIN_SEP itself holds one.
- Shortener.CleanFile: the round trip is stated only for a JOIN_SEP of one space; for other separators only the suffix is stated.
- Shortener.CleanPath: the contract does not state the content of the joined name; `MiddleFolders` states which names are joined and `CleanPathEmpty` when the result is empty.
- Shortener.ShortenParts: does not state the middle part's length, since `clean_path` joins any number of folders with no ceiling. Its own contract gives only bounds; the content of each part, in terms of the path, is stated by `ShortenPartsStages`.
- `os.sep` is the POSIX '/'; Windows separators and drive letters are not modelled.
- The `pathlib` suffix rule is that of Python up to 3.13: a name ending in "." has no suffix. Python 3.14 changed how such a name is treated; that rule is not modelled.
