/**
 * `SoftwareCard`: the display values of a software entry: the text fields,
 * the external link, the operating-system tags and whether the Homebrew
 * copy button appears.
 */
module SoftwareCard {
  import opened Wrappers
  import opened Strings
  import opened Seqs
  import opened JsValues

  /** `String(x ?? "")`: nullish values show as nothing, anything else as `String(x)`. */
  function SafeText(x: JsValue): (r: string)
    ensures IsNullish(x) ==> r == ""
    ensures !IsNullish(x) ==> r == ToJsString(x)
  {
    ToJsString(Coalesce(x, Str("")))
  }

  /**
   * `safeLink`: no link unless `link` is a non-empty string; one starting
   * with `"http"` is kept, any other gets `"https://"` in front.
   */
  function SafeLink(link: JsValue): (r: Option<string>)
    ensures r.Some? <==> link.Str? && link.s != ""
    ensures r.Some? && StartsWith(link.s, "http") ==> r.value == link.s
    ensures r.Some? && !StartsWith(link.s, "http") ==> r.value == "https://" + link.s
    ensures r.Some? ==> StartsWith(r.value, "http") && EndsWith(r.value, link.s)
  {
    if link.Str? && link.s != "" then
      if StartsWith(link.s, "http") then Some(link.s)
      else
        var h := "https://" + link.s;
        assert h[..4] == "http" && h[|h| - |link.s|..] == link.s;
        Some(h)
    else None
  }

  /** A link the card produced is kept as it is when it is given again. */
  lemma SafeLinkIdempotent(link: JsValue)
    requires SafeLink(link).Some?
    ensures SafeLink(Str(SafeLink(link).value)) == SafeLink(link)
  {
  }

  /** Each piece trimmed, in order. */
  function TrimAll(pieces: seq<string>): (r: seq<string>)
    ensures |r| == |pieces| && forall i :: 0 <= i < |r| ==> r[i] == Trim(pieces[i])
  {
    seq(|pieces|, i requires 0 <= i < |pieces| => Trim(pieces[i]))
  }

  predicate NonEmpty(s: string) {
    s != ""
  }

  /**
   * `osTags`: `operatingSystem` split on commas, each piece trimmed and the
   * empty ones dropped; nothing when it is not a string or is empty.
   */
  function OsTags(operatingSystem: JsValue): (tags: seq<string>)
    ensures !operatingSystem.Str? || operatingSystem.s == "" ==> tags == []
    ensures forall i :: 0 <= i < |tags| ==> tags[i] != "" && Trim(tags[i]) == tags[i] && ',' !in tags[i]
    ensures operatingSystem.Str? ==> forall t :: t in tags <==> t != "" && t in TrimAll(Split(operatingSystem.s, ','))
  {
    var raw := StringOr(operatingSystem, "");
    if raw == "" then []
    else
      var pieces := Split(raw, ',');
      var trimmed := TrimAll(pieces);
      var tags := Filter(trimmed, NonEmpty);
      forall i | 0 <= i < |tags| ensures tags[i] != "" && Trim(tags[i]) == tags[i] && ',' !in tags[i] {
        assert tags[i] in trimmed;
        var k :| 0 <= k < |trimmed| && trimmed[k] == tags[i];
        TrimIdempotent(pieces[k]);
        if ',' in tags[i] {
          TrimChars(pieces[k], ',');
        }
      }
      tags
  }

  /**
   * Tags are read comma by comma: the tags of `a,b` are those of `a` followed
   * by those of `b`, so order and repeats are kept.
   */
  lemma OsTagsConcat(a: string, b: string)
    ensures OsTags(Str(a + "," + b)) == OsTags(Str(a)) + OsTags(Str(b))
  {
    PiecesConcat(a, b);
    EmptyTags(a);
    EmptyTags(b);
    EmptyTags(a + "," + b);
  }

  lemma PiecesConcat(a: string, b: string)
    ensures Filter(TrimAll(Split(a + "," + b, ',')), NonEmpty) ==
      Filter(TrimAll(Split(a, ',')), NonEmpty) + Filter(TrimAll(Split(b, ',')), NonEmpty)
  {
    SplitAppend(a, b, ',');
    var pa, pb := Split(a, ','), Split(b, ',');
    TrimAllConcat(pa, pb);
    FilterConcat(TrimAll(pa), TrimAll(pb), NonEmpty);
  }

  lemma TrimAllConcat(x: seq<string>, y: seq<string>)
    ensures TrimAll(x + y) == TrimAll(x) + TrimAll(y)
  {
    assert forall i :: 0 <= i < |x + y| ==> TrimAll(x + y)[i] == (TrimAll(x) + TrimAll(y))[i] by {
      forall i | 0 <= i < |x + y| ensures TrimAll(x + y)[i] == (TrimAll(x) + TrimAll(y))[i] {
        if i >= |x| {
          assert (x + y)[i] == y[i - |x|];
        }
      }
    }
  }

  /** The empty string has no tags, whichever way it is read. */
  lemma EmptyTags(a: string)
    ensures Filter(TrimAll(Split(a, ',')), NonEmpty) == OsTags(Str(a))
  {
    if a == "" {
      assert TrimAll(Split(a, ',')) == [""];
      FilterSingle("", NonEmpty);
    }
  }

  /** A comma-free piece is one tag, its trim, unless it is blank. */
  lemma OsTagsPiece(a: string)
    requires ',' !in a
    ensures OsTags(Str(a)) == if Trim(a) == "" then [] else [Trim(a)]
  {
    SplitJoin([a], ',');
    assert Split(a, ',') == [a];
    assert TrimAll([a]) == [Trim(a)];
    FilterSingle(Trim(a), NonEmpty);
    EmptyTags(a);
  }

  /**
   * Two non-blank, comma-free pieces give their trims in the order written,
   * however they are padded, and twice when they trim alike (`"Mac, Mac"`).
   */
  lemma OsTagsPair(a: string, b: string)
    requires ',' !in a && ',' !in b && Trim(a) != "" && Trim(b) != ""
    ensures OsTags(Str(a + "," + b)) == [Trim(a), Trim(b)]
  {
    OsTagsConcat(a, b);
    NonBlankPiece(a);
    NonBlankPiece(b);
  }

  lemma NonBlankPiece(a: string)
    requires ',' !in a && Trim(a) != ""
    ensures OsTags(Str(a)) == [Trim(a)]
  {
    OsTagsPiece(a);
  }

  /** `s.trim()` is truthy exactly when `s` has a non-whitespace character. */
  function ShowCopyButton(brewInstall: JsValue): (r: bool)
    ensures r <==> brewInstall.Str? && !AllWhitespace(brewInstall.s)
  {
    if brewInstall.Str? then
      TrimEmpty(brewInstall.s);
      Trim(brewInstall.s) != ""
    else false
  }

  /** Each string of `ts` with one space in front. */
  function Spaced(ts: seq<string>): (r: seq<string>)
    ensures |r| == |ts| && forall i :: 0 <= i < |r| ==> r[i] == " " + ts[i]
  {
    seq(|ts|, i requires 0 <= i < |ts| => " " + ts[i])
  }

  lemma {:induction false} JoinSpaced(ts: seq<string>)
    requires |ts| >= 1
    ensures Join(Spaced(ts), ",") == " " + Join(ts, ", ")
    decreases |ts|
  {
    if |ts| > 1 {
      JoinSpaced(ts[1..]);
      assert Spaced(ts)[1..] == Spaced(ts[1..]);
      assert Join(Spaced(ts), ",") == (" " + ts[0]) + "," + (" " + Join(ts[1..], ", "));
      assert Join(ts, ", ") == ts[0] + ", " + Join(ts[1..], ", ");
    }
  }

  /** The comma-split pieces of a `", "`-joined list: the first name, then each further name after a space. */
  lemma JoinPieces(tags: seq<string>)
    requires |tags| >= 1
    ensures Join([tags[0]] + Spaced(tags[1..]), ",") == Join(tags, ", ")
  {
    if |tags| > 1 {
      JoinCons(tags[0], Spaced(tags[1..]), ",");
      JoinSpaced(tags[1..]);
      JoinCons(tags[0], tags[1..], ", ");
      assert tags == [tags[0]] + tags[1..];
      CommaSpace(tags[0], Join(tags[1..], ", "));
    } else {
      assert [tags[0]] + Spaced(tags[1..]) == tags;
    }
  }

  lemma CommaSpace(a: string, j: string)
    ensures a + "," + (" " + j) == a + ", " + j
  {
  }

  lemma TrimPieces(tags: seq<string>)
    requires |tags| >= 1
    requires forall i :: 0 <= i < |tags| ==> Trim(tags[i]) == tags[i]
    ensures TrimAll([tags[0]] + Spaced(tags[1..])) == tags
  {
    var pieces := [tags[0]] + Spaced(tags[1..]);
    var r := TrimAll(pieces);
    forall i | 0 <= i < |pieces| ensures r[i] == tags[i] {
      if i == 0 {
        assert pieces[0] == tags[0];
      } else {
        assert pieces[i] == Spaced(tags[1..])[i - 1];
        assert tags[1..][i - 1] == tags[i];
        TrimSpaced(tags[i]);
      }
    }
  }

  lemma TrimSpaced(t: string)
    requires Trim(t) == t
    ensures Trim(" " + t) == t
  {
    TrimLeading(" ", t);
  }

  lemma PiecesCommaFree(tags: seq<string>)
    requires |tags| >= 1
    requires forall i :: 0 <= i < |tags| ==> ',' !in tags[i]
    ensures forall i :: 0 <= i < |[tags[0]] + Spaced(tags[1..])| ==> ',' !in ([tags[0]] + Spaced(tags[1..]))[i]
  {
    var pieces := [tags[0]] + Spaced(tags[1..]);
    forall i | 0 <= i < |pieces| ensures ',' !in pieces[i] {
      if i > 0 {
        assert pieces[i] == " " + tags[i];
      }
    }
  }

  /**
   * Tags written out as `"macOS, Windows, Linux"` read back as the same tags:
   * the list form is the inverse of `osTags` for trimmed, comma-free names.
   */
  lemma OsTagsOfList(tags: seq<string>)
    requires forall i :: 0 <= i < |tags| ==> tags[i] != "" && Trim(tags[i]) == tags[i] && ',' !in tags[i]
    ensures OsTags(Str(Join(tags, ", "))) == tags
  {
    if tags != [] {
      var pieces := [tags[0]] + Spaced(tags[1..]);
      var s := Join(tags, ", ");
      JoinPieces(tags);
      PiecesCommaFree(tags);
      SplitJoin(pieces, ',');
      assert Split(s, ',') == pieces;
      TrimPieces(tags);
      FilterAll(tags, NonEmpty);
      assert s != "" by {
        if |tags| > 1 {
          assert s == tags[0] + ", " + Join(tags[1..], ", ");
        }
      }
    }
  }
}
