/** The review mode names and their normalisation, shared by the staging
    script (mode read back from a group's metadata) and the review server. */
module Modes {
  import opened Text

  const Exact: string := "exact"
  const AHash: string := "ahash"
  const PHash: string := "phash"
  const KnownModes: set<string> := {Exact, AHash, PHash}

  /** `m = str(mode).lower(); m if m in {"exact", "ahash", "phash"} else "exact"`. */
  function NormalizeMode(mode: string): (r: string)
    ensures r in KnownModes
    ensures Lower(mode) in KnownModes ==> r == Lower(mode)
    ensures Lower(mode) !in KnownModes ==> r == Exact
  {
    var m := Lower(mode);
    if m in KnownModes then m else Exact
  }

  /** The known modes are already lower case. */
  lemma KnownModesLower(m: string)
    requires m in KnownModes
    ensures Lower(m) == m
  {
    assert Lower(Exact) == Exact;
    assert Lower(AHash) == AHash;
    assert Lower(PHash) == PHash;
  }

  /** Normalising a normalised mode changes nothing. */
  lemma NormalizeIdempotent(mode: string)
    ensures NormalizeMode(NormalizeMode(mode)) == NormalizeMode(mode)
  {
    KnownModesLower(NormalizeMode(mode));
  }

  /** Case does not matter: "PHASH", "Phash" and "phash" normalise alike. */
  lemma NormalizeIgnoresCase(mode: string)
    ensures NormalizeMode(Lower(mode)) == NormalizeMode(mode)
  {
    LowerIdempotent(mode);
  }
}
