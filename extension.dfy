/**
 * `match_extension` of src/zx0.c: does a file name end in the extension of
 * the chosen format (".zx0" for the standard format, ".zxx" for the extended
 * one), with at least one character before it?
 */
module Extension {

  /** The extension of each format; the driver also appends it to derive an output name. */
  function Ext(extendedMode: bool): (e: string)
    ensures |e| == 4
  {
    if extendedMode then ".zxx" else ".zx0"
  }

  /** `strlen(name) > 4` and the last four characters compare equal to the extension. */
  predicate MatchExtension(filename: string, extendedMode: bool) {
    |filename| > 4 && filename[|filename| - 4..] == Ext(extendedMode)
  }

  /** A name that matches is a non-empty stem followed by the extension. */
  lemma MatchedNameSplits(filename: string, extendedMode: bool)
    requires MatchExtension(filename, extendedMode)
    ensures var stem := filename[..|filename| - 4];
      |stem| > 0 && filename == stem + Ext(extendedMode)
  {
  }

  /** Conversely, a non-empty stem followed by the extension matches. */
  lemma AppendedNameMatches(stem: string, extendedMode: bool)
    requires |stem| > 0
    ensures MatchExtension(stem + Ext(extendedMode), extendedMode)
  {
  }

  /** A name matches exactly when it is some non-empty stem followed by the extension. */
  lemma MatchExtensionByStem(filename: string, extendedMode: bool)
    ensures MatchExtension(filename, extendedMode) <==>
      exists stem :: |stem| > 0 && filename == stem + Ext(extendedMode)
  {
    if MatchExtension(filename, extendedMode) {
      MatchedNameSplits(filename, extendedMode);
      var stem := filename[..|filename| - 4];
      assert |stem| > 0 && filename == stem + Ext(extendedMode);
    }
    if exists stem :: |stem| > 0 && filename == stem + Ext(extendedMode) {
      var stem :| |stem| > 0 && filename == stem + Ext(extendedMode);
      AppendedNameMatches(stem, extendedMode);
    }
  }

  /** The extension alone is not a match: the length test is strict. */
  lemma BareExtensionDoesNotMatch(extendedMode: bool)
    ensures !MatchExtension(Ext(extendedMode), extendedMode)
    ensures !MatchExtension(".zx0", false) && !MatchExtension(".zxx", true)
  {
  }

  /** No name carries both extensions. */
  lemma ExtensionsExclusive(filename: string)
    ensures !(MatchExtension(filename, true) && MatchExtension(filename, false))
  {
  }

  /**
   * A name the driver derives by appending one format's extension never
   * matches the other format's: the warning at src/zx0.c:161 can only fire
   * for an output name given on the command line.
   */
  lemma DerivedNameMatchesOnlyItsFormat(input: string, extendedMode: bool)
    ensures !MatchExtension(input + Ext(extendedMode), !extendedMode)
    ensures |input| > 0 ==> MatchExtension(input + Ext(extendedMode), extendedMode)
  {
  }
}
