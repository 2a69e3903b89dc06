/** Whether the terminal can show Sixel graphics (`supportsSixel` in
    cmd/browse_tui.go), decided from three environment variables. The values are
    parameters here: reading the environment is left to the caller. */
module Capability {
  import Text

  /** Substrings of `TERM_PROGRAM` that name Sixel-capable terminals. */
  const SixelPrograms: seq<string> := ["iterm", "wezterm", "mintty", "contour"]

  /** Substrings of `TERM` that name Sixel-capable terminals. */
  const SixelTerms: seq<string> := ["sixel", "xterm", "mlterm", "foot"]

  /** `s` contains one of `words`. */
  predicate MentionsAny(s: string, words: seq<string>) {
    exists k :: 0 <= k < |words| && Text.Contains(s, words[k])
  }

  /** True for Windows Terminal (any `WT_SESSION`), for a known program in
      `TERM_PROGRAM`, or for a known terminal type in `TERM`; both names are
      compared trimmed and lower-cased. */
  function SupportsSixel(term: string, termProgram: string, wtSession: string): (r: bool)
    ensures r <==> || wtSession != ""
                   || MentionsAny(Text.Normalize(termProgram), SixelPrograms)
                   || MentionsAny(Text.Normalize(term), SixelTerms)
  {
    var t := Text.Normalize(term);
    var p := Text.Normalize(termProgram);
    assert SixelPrograms[0] == "iterm" && SixelPrograms[1] == "wezterm";
    assert SixelPrograms[2] == "mintty" && SixelPrograms[3] == "contour";
    assert SixelTerms[0] == "sixel" && SixelTerms[1] == "xterm";
    assert SixelTerms[2] == "mlterm" && SixelTerms[3] == "foot";
    if wtSession != "" then true
    else if Text.Contains(p, "iterm") || Text.Contains(p, "wezterm")
         || Text.Contains(p, "mintty") || Text.Contains(p, "contour") then true
    else if t == "" then false
    else Text.Contains(t, "sixel") || Text.Contains(t, "xterm")
         || Text.Contains(t, "mlterm") || Text.Contains(t, "foot")
  }

  /** The answer depends on the names only up to surrounding white space and case. */
  lemma SixelIgnoresCaseAndSpace(term: string, termProgram: string, wtSession: string)
    ensures SupportsSixel(Text.Normalize(term), Text.Normalize(termProgram), wtSession)
         == SupportsSixel(term, termProgram, wtSession)
  {
    Text.NormalizeIdempotent(term);
    Text.NormalizeIdempotent(termProgram);
  }

  /** With all three variables unset there is no Sixel support. */
  lemma NoEnvironmentNoSixel()
    ensures !SupportsSixel("", "", "")
  {
    Text.NormalWord("");
  }

  /** A blank `TERM` never matches: the explicit empty-`TERM` test returns what the
      word search would have returned anyway. */
  lemma BlankTermMatchesNothing(term: string)
    requires Text.Normalize(term) == ""
    ensures !MentionsAny(Text.Normalize(term), SixelTerms)
  {
    forall k | 0 <= k < |SixelTerms| ensures !Text.Contains("", SixelTerms[k]) {
      assert |SixelTerms[k]| > 0;
    }
  }
}
