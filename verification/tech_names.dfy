/** `normalizeTech`: display names for technology labels. */
module TechNames {
  import opened Strings

  /** The one alias the display rewrites, in lower case, and what it shows instead. */
  const SquareAlias: string := "square api"
  const SquareName: string := "Square"

  /** The display name of one label: the alias in any ASCII case becomes `"Square"`. */
  function DisplayName(t: string): string {
    if ToLower(t) == SquareAlias then SquareName else t
  }

  /** `techs.map(...)`: same length, the alias rewritten, every other label kept as it is. */
  function NormalizeTech(techs: seq<string>): (r: seq<string>)
    ensures |r| == |techs|
    ensures forall i :: 0 <= i < |r| ==> (ToLower(techs[i]) == SquareAlias ==> r[i] == SquareName)
    ensures forall i :: 0 <= i < |r| ==> (ToLower(techs[i]) != SquareAlias ==> r[i] == techs[i])
    ensures forall i :: 0 <= i < |r| ==> ToLower(r[i]) != SquareAlias
  {
    var r := seq(|techs|, i requires 0 <= i < |techs| => DisplayName(techs[i]));
    assert ToLower(SquareName) != SquareAlias by {
      assert |ToLower(SquareName)| != |SquareAlias|;
    }
    r
  }

  /** Normalising twice is normalising once. */
  lemma NormalizeIdempotent(techs: seq<string>)
    ensures NormalizeTech(NormalizeTech(techs)) == NormalizeTech(techs)
  {
  }
}
