/** The configuration the shortener reads, as one immutable record. The program
    loads these values from its YAML file into module-level names; here they are
    passed explicitly. Settings that only the file enumerator, the converter or
    the interactive loop use are not part of the record. */
module Settings {

  datatype Config = Config(
    /** SPLIT_PUNCTUATION: each of these characters becomes a space. */
    splitPunctuation: string,
    /** FILL_PUNCTUATION: each of these characters is deleted. */
    fillPunctuation: string,
    /** STRIKE_WORDS as written in the configuration file. */
    strikeWords: seq<string>,
    /** JOIN_SEP: placed between the words of one folder or file name. */
    joinSep: string,
    /** WORD_FORMAT: "lower", "upper", "title", or anything else for no change. */
    wordFormat: string,
    /** DUPES_ELIMINATE_PATH: whether deduplication may empty a folder name. */
    dupesEliminatePath: bool,
    /** MAX_FILE_LENGTH: ceiling for the file name, ".wav" included. */
    maxFileLength: int,
    /** MAX_DIR_LENGTH: ceiling for each folder name. */
    maxDirLength: int
  )
}
