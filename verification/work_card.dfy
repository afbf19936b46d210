/**
 * `WorkCard`: the values the client-work card derives from its props before
 * rendering: the technology list, the chip slugs, the demo link and the
 * tilt of the card.
 */
module WorkCard {
  import opened Wrappers
  import opened Strings
  import opened JsValues
  import opened TechNames

  predicate AllStrings(items: seq<JsValue>) {
    forall i :: 0 <= i < |items| ==> items[i].Str?
  }

  function StringsOf(items: seq<JsValue>): (r: seq<string>)
    requires AllStrings(items)
    ensures |r| == |items| && forall i :: 0 <= i < |r| ==> items[i] == Str(r[i])
  {
    seq(|items|, i requires 0 <= i < |items| => items[i].s)
  }

  /**
   * `Array.isArray(technologies) ? normalizeTech(technologies) : []`.
   * `None` stands for the render throwing: `toLowerCase` is called on every
   * element, so an element that is not a string raises a `TypeError`.
   */
  function Techs(technologies: JsValue): (r: Option<seq<string>>)
    ensures !technologies.Arr? ==> r == Some([])
    ensures technologies.Arr? ==> (r.Some? <==> AllStrings(technologies.items))
    ensures r.Some? && technologies.Arr? ==> |r.value| == |technologies.items|
    ensures r.Some? && technologies.Arr? ==> r.value == NormalizeTech(StringsOf(technologies.items))
  {
    match technologies
    case Arr(items) => if AllStrings(items) then Some(NormalizeTech(StringsOf(items))) else None
    case _ => Some([])
  }

  /** The slug of each chip: the label in lower case, so no slug has an upper-case letter. */
  function ChipSlugs(techs: seq<string>): (r: seq<string>)
    ensures |r| == |techs|
    ensures forall i :: 0 <= i < |r| ==> r[i] == ToLower(techs[i])
    ensures forall i, k :: 0 <= i < |r| && 0 <= k < |r[i]| ==> !IsAsciiUpper(r[i][k])
  {
    seq(|techs|, i requires 0 <= i < |techs| => ToLower(techs[i]))
  }

  /** A slug is already lower case: lower-casing it again changes nothing. */
  lemma SlugsAreFixed(techs: seq<string>)
    ensures ChipSlugs(ChipSlugs(techs)) == ChipSlugs(techs)
  {
    var s := ChipSlugs(techs);
    forall i | 0 <= i < |s| ensures ToLower(s[i]) == s[i] {
      assert forall k :: 0 <= k < |s[i]| ==> LowerChar(s[i][k]) == s[i][k];
    }
  }

  /**
   * The demo link: shown only when `link` is truthy; a string starting with
   * `"http"` is used as it is, anything else is `"https://"` followed by
   * `String(link)`.
   */
  function Href(link: JsValue): (r: Option<string>)
    ensures r.Some? <==> Truthy(link)
    ensures r.Some? && link.Str? && StartsWith(link.s, "http") ==> r.value == link.s
    ensures r.Some? && !(link.Str? && StartsWith(link.s, "http")) ==> r.value == "https://" + ToJsString(link)
    ensures r.Some? ==> StartsWith(r.value, "http")
  {
    if !Truthy(link) then None
    else if link.Str? && StartsWith(link.s, "http") then Some(link.s)
    else
      var h := "https://" + ToJsString(Coalesce(link, Str("")));
      assert h[..4] == "http";
      Some(h)
  }

  /** A link the card produced is kept as it is when it is given again. */
  lemma HrefIdempotent(link: JsValue)
    requires Truthy(link)
    ensures Href(Str(Href(link).value)) == Href(link)
  {
    var h := Href(link).value;
    assert h != "" by {
      assert StartsWith(h, "http");
    }
  }

  /** `index % 2 === 0 ? -1 : 1`. */
  function Rotation(index: int): (r: int)
    ensures r == -1 || r == 1
    ensures r == -1 <==> index % 2 == 0
  {
    if JsRem(index, 2) == 0 then -1 else 1
  }
}
