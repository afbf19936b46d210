/**
 * `ProjectCard`: the source-code links a project card shows and their
 * labels, the technology guard, the tilt of the card, and the `ProjectLink`
 * button that renders nothing without an address.
 */
module ProjectCard {
  import opened Wrappers
  import opened Decimal
  import opened JsValues

  /**
   * `links`: `sourceLinks` when it is a non-empty array, else `[sourceLink]`
   * when that is a string, else nothing.
   */
  function Links(sourceLinks: JsValue, sourceLink: JsValue): (r: seq<JsValue>)
    ensures sourceLinks.Arr? && sourceLinks.items != [] ==> r == sourceLinks.items
    ensures !(sourceLinks.Arr? && sourceLinks.items != []) && sourceLink.Str? ==> r == [sourceLink]
    ensures !(sourceLinks.Arr? && sourceLinks.items != []) && !sourceLink.Str? ==> r == []
  {
    if sourceLinks.Arr? && |sourceLinks.items| > 0 then sourceLinks.items
    else if sourceLink.Str? then [sourceLink]
    else []
  }

  /** Every link shown was given, and there are none only when neither prop supplies one. */
  lemma LinksFromProps(sourceLinks: JsValue, sourceLink: JsValue)
    ensures forall x :: x in Links(sourceLinks, sourceLink) ==> (sourceLinks.Arr? && x in sourceLinks.items) || x == sourceLink
    ensures Links(sourceLinks, sourceLink) == [] <==> !(sourceLinks.Arr? && sourceLinks.items != []) && !sourceLink.Str?
  {
  }

  /** `Array.isArray(technologies) ? technologies : []`. */
  function Techs(technologies: JsValue): (r: seq<JsValue>)
    ensures technologies.Arr? ==> r == technologies.items
    ensures !technologies.Arr? ==> r == []
  {
    if technologies.Arr? then technologies.items else []
  }

  /** The label of the `idx`-th code link: numbered from 1 only when there are several. */
  function CodeLabel(idx: nat, count: nat): (r: string)
    ensures count <= 1 ==> r == "Code"
    ensures count > 1 ==> r == "Code " + NatToString(idx + 1)
  {
    if count > 1 then "Code " + NatToString(idx + 1) else "Code"
  }

  /** With several links the labels are all different, and each names its own position. */
  lemma CodeLabelsDistinct(i: nat, j: nat, count: nat)
    requires count > 1 && i != j
    ensures CodeLabel(i, count) != CodeLabel(j, count)
  {
    var a, b := NatToString(i + 1), NatToString(j + 1);
    assert a != b by {
      ParseNatToString(i + 1);
      ParseNatToString(j + 1);
    }
    PrefixCancels("Code ", a, b);
  }

  lemma PrefixCancels(p: string, a: string, b: string)
    requires a != b
    ensures p + a != p + b
  {
    assert (p + a)[|p|..] == a && (p + b)[|p|..] == b;
  }

  datatype Button = Button(href: string, text: string)

  /** `ProjectLink`: nothing when `href` is missing or empty, otherwise a button to it. */
  function ProjectLink(href: Option<string>, text: string): (r: Option<Button>)
    ensures r.None? <==> href.None? || href.value == ""
    ensures r.Some? ==> r.value.href == href.value && r.value.text == text
  {
    if href.Some? && href.value != "" then Some(Button(href.value, text)) else None
  }

  /** `typeof x === "string" ? x : undefined`. */
  function StringHref(x: JsValue): Option<string> {
    if x.Str? then Some(x.s) else None
  }

  /** The code buttons, one slot per link; a link that is not a non-empty string renders nothing. */
  function CodeButtons(links: seq<JsValue>): (r: seq<Option<Button>>)
    ensures |r| == |links|
    ensures forall i :: 0 <= i < |r| ==> (r[i].Some? <==> links[i].Str? && links[i].s != "")
    ensures forall i :: 0 <= i < |r| && r[i].Some? ==> r[i].value == Button(links[i].s, CodeLabel(i, |links|))
  {
    seq(|links|, i requires 0 <= i < |links| => ProjectLink(StringHref(links[i]), CodeLabel(i, |links|)))
  }

  /** The demo button: `demoLink` when it is a non-empty string. */
  function DemoButton(demoLink: JsValue): (r: Option<Button>)
    ensures r.Some? <==> demoLink.Str? && demoLink.s != ""
    ensures r.Some? ==> r.value == Button(demoLink.s, "Demo")
  {
    ProjectLink(StringHref(demoLink), "Demo")
  }

  /** `(index % 3) - 1`, with JavaScript's remainder. */
  function Rotation(index: int): (r: int)
    ensures index >= 0 ==> -1 <= r <= 1 && r == index % 3 - 1
    ensures index < 0 ==> -3 <= r <= -1
  {
    JsRem(index, 3) - 1
  }

  /** A negative index leaves the range: `-1 % 3` is `-1` in JavaScript, so the tilt is `-2`. */
  lemma NegativeIndexRotation()
    ensures Rotation(-1) == -2
  {
    assert JsRem(-1, 3) == -1;
  }
}
