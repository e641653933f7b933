/** The extension lists the scanners and the resolver test against, as the
    source spells them (lower case, with the leading dot unless noted). */
module Extensions {
  import opened Common

  /** The nine extensions whose presence (as a substring of the lower-cased
      text) marks a recovered string as naming a file: efk_scanner.py:296 and
      :332, correct_efk_parser.py:87, final_efk_analyzer.py:76,
      extract_efk_strings.py:85, precise_efk_parser.py:17-20. */
  const ReferenceExtensions: seq<string> :=
    [".png", ".jpg", ".jpeg", ".tga", ".dds", ".bmp", ".efk", ".efkmat", ".efkmodel"]

  /** The thirteen extensions an effect-model container adds to that test
      (efk_scanner.py:371 and :748). */
  const ModelReferenceExtensions: seq<string> :=
    ReferenceExtensions + [".obj", ".fbx", ".3ds", ".dae"]

  /** The nineteen extensions the path extractor searches for and the path
      filter accepts (efk_scanner.py:526-530, :660-664, :806-810). */
  const PathExtensions: seq<string> :=
    ModelReferenceExtensions + [".blend", ".mtl", ".mat", ".material", ".mesh", ".model"]

  /** The thirteen target extensions of the unused-file search and of the
      resolver's filename tiers (main_window.py:766-771, :902-907, :1079). */
  const TargetExtensions: seq<string> :=
    [".png", ".jpg", ".jpeg", ".tga", ".dds", ".bmp", ".tiff", ".tif", ".webp", ".ktx", ".pvr",
     ".efkmat", ".efkmodel"]

  /** Does the lower-cased text contain one of `exts[k..]` as a substring? */
  predicate MentionsFrom(s: string, exts: seq<string>, k: nat)
    decreases |exts| - k
  {
    k < |exts| && (Contains(Lower(s), exts[k]) || MentionsFrom(s, exts, k + 1))
  }

  /** Does the lower-cased text contain one of `exts` as a substring? */
  predicate MentionsAny(s: string, exts: seq<string>)
  {
    MentionsFrom(s, exts, 0)
  }

  /** The scan over `exts[k..]` finds an extension exactly when one of them
      occurs in the lower-cased text. */
  lemma {:induction false} MentionsFromIff(s: string, exts: seq<string>, k: nat)
    ensures MentionsFrom(s, exts, k) <==> exists j :: k <= j < |exts| && Contains(Lower(s), exts[j])
    decreases |exts| - k
  {
    if k < |exts| {
      MentionsFromIff(s, exts, k + 1);
      if !Contains(Lower(s), exts[k]) {
        assert (exists j :: k <= j < |exts| && Contains(Lower(s), exts[j]))
          ==> exists j :: k + 1 <= j < |exts| && Contains(Lower(s), exts[j]);
      }
    }
  }

}
