/**
 * Keyword emphasis (`emphasizeHtml`, `safeSegments`, `splitForPdf`): a text
 * is cut into plain and bold segments, bold where the keyword regex
 * matches, scanning left to right and resuming after each match.
 *
 * The scan is stated over a table of anchored matches (`MatchTable` gives
 * the regex's): `ValidFrom` says what a correct segmentation is,
 * independently of how it is computed. Concatenated, the segments give back
 * the text; every bold segment is the match found at its offset; no match
 * starts inside a plain segment; no segment is empty and no two plain
 * segments are adjacent. `ValidUnique` shows that this determines the
 * segmentation.
 */
module Emphasis {
  import opened Wrappers
  import opened JsValues
  import opened KeywordRegex
  import opened Seqs

  datatype Segment = Segment(text: string, bold: bool)

  function Concat(segs: seq<Segment>): string {
    if segs == [] then "" else segs[0].text + Concat(segs[1..])
  }

  function Texts(segs: seq<Segment>): seq<string> {
    if segs == [] then [] else [segs[0].text] + Texts(segs[1..])
  }

  /** `segs` is a correct emphasis of `t[pos..]` under the match table `m`. */
  predicate ValidFrom(m: seq<Option<nat>>, t: string, pos: nat, segs: seq<Segment>)
    requires |m| == |t| + 1 && pos <= |t|
    decreases |segs|
  {
    if segs == [] then pos == |t|
    else
      var n := |segs[0].text|;
      && 0 < n && pos + n <= |t| && segs[0].text == t[pos..pos + n]
      && (if segs[0].bold then m[pos] == Some(n)
          else (forall p :: pos <= p < pos + n ==> m[p].None?) && (|segs| > 1 ==> segs[1].bold))
      && ValidFrom(m, t, pos + n, segs[1..])
  }

  /** The `while ((match = regex.exec(text)) !== null)` loop, from `lastIndex == last`. */
  function Scan(m: seq<Option<nat>>, t: string, last: nat): seq<Segment>
    requires IsMatchTable(m, t) && last <= |t|
    decreases |t| - last
  {
    match FirstHit(m, last)
    case None =>
      if last < |t| then [Segment(t[last..], false)] else []
    case Some(h) =>
      var hit := Segment(t[h.start..h.start + h.len], true);
      var rest := Scan(m, t, h.start + h.len);
      if h.start > last then [Segment(t[last..h.start], false)] + ([hit] + rest)
      else [hit] + rest
  }

  /** One turn of the loop when text precedes the match: that text, the match, then the rest of the scan. */
  lemma ScanStepPlain(m: seq<Option<nat>>, t: string, last: nat, h: Hit)
    requires IsMatchTable(m, t) && last <= |t| && FirstHit(m, last) == Some(h) && h.start > last
    ensures 0 < h.len && h.start + h.len <= |t|
    ensures var s := Scan(m, t, last);
      && |s| >= 2 && s[0] == Segment(t[last..h.start], false)
      && s[1] == Segment(t[h.start..h.start + h.len], true) && s[2..] == Scan(m, t, h.start + h.len)
  {
    var s := Scan(m, t, last);
    var b := [Segment(t[h.start..h.start + h.len], true)] + Scan(m, t, h.start + h.len);
    assert s == [Segment(t[last..h.start], false)] + b;
    assert s[1..] == b && s[2..] == b[1..];
  }

  /** One turn of the loop when the match starts at `last`: the match, then the rest of the scan. */
  lemma ScanStepBold(m: seq<Option<nat>>, t: string, last: nat, h: Hit)
    requires IsMatchTable(m, t) && last <= |t| && FirstHit(m, last) == Some(h) && h.start <= last
    ensures h.start == last && 0 < h.len && h.start + h.len <= |t|
    ensures var s := Scan(m, t, last);
      && |s| >= 1 && s[0] == Segment(t[h.start..h.start + h.len], true)
      && s[1..] == Scan(m, t, h.start + h.len)
  {
    var s := Scan(m, t, last);
    assert s == [Segment(t[h.start..h.start + h.len], true)] + Scan(m, t, h.start + h.len);
  }

  /** The loop's exit: the text after the last match, if any. */
  lemma ScanEnd(m: seq<Option<nat>>, t: string, last: nat)
    requires IsMatchTable(m, t) && last <= |t| && FirstHit(m, last).None?
    ensures Scan(m, t, last) == if last < |t| then [Segment(t[last..], false)] else []
  {
  }

  lemma ConsBold(m: seq<Option<nat>>, t: string, pos: nat, n: nat, segs: seq<Segment>)
    requires |m| == |t| + 1 && 0 < n && pos + n <= |t| && m[pos] == Some(n)
    requires segs != [] && segs[0] == Segment(t[pos..pos + n], true)
    requires ValidFrom(m, t, pos + n, segs[1..])
    ensures ValidFrom(m, t, pos, segs)
  {
  }

  lemma ConsPlain(m: seq<Option<nat>>, t: string, pos: nat, n: nat, segs: seq<Segment>)
    requires |m| == |t| + 1 && 0 < n && pos + n <= |t|
    requires forall p :: pos <= p < pos + n ==> m[p].None?
    requires segs != [] && segs[0] == Segment(t[pos..pos + n], false)
    requires |segs| > 1 ==> segs[1].bold
    requires ValidFrom(m, t, pos + n, segs[1..])
    ensures ValidFrom(m, t, pos, segs)
  {
  }

  lemma ScanEndValid(m: seq<Option<nat>>, t: string, last: nat)
    requires IsMatchTable(m, t) && last <= |t| && FirstHit(m, last).None?
    ensures ValidFrom(m, t, last, Scan(m, t, last))
  {
    ScanEnd(m, t, last);
    if last < |t| {
      assert ValidFrom(m, t, |t|, []);
      assert t[last..|t|] == t[last..];
      ConsPlain(m, t, last, |t| - last, Scan(m, t, last));
    }
  }

  lemma ScanStepValid(m: seq<Option<nat>>, t: string, last: nat, h: Hit)
    requires IsMatchTable(m, t) && last <= |t| && FirstHit(m, last) == Some(h)
    requires h.start + h.len <= |t| && ValidFrom(m, t, h.start + h.len, Scan(m, t, h.start + h.len))
    ensures ValidFrom(m, t, last, Scan(m, t, last))
  {
    if h.start > last {
      ScanStepPlain(m, t, last, h);
      ScanPlainValid(m, t, last, h, Scan(m, t, last));
    } else {
      ScanStepBold(m, t, last, h);
      ConsBold(m, t, h.start, h.len, Scan(m, t, last));
    }
  }

  lemma ScanPlainValid(m: seq<Option<nat>>, t: string, last: nat, h: Hit, s: seq<Segment>)
    requires |m| == |t| + 1 && last < h.start && 0 < h.len && h.start + h.len <= |t|
    requires m[h.start] == Some(h.len) && forall p :: last <= p < h.start ==> m[p].None?
    requires |s| >= 2 && s[0] == Segment(t[last..h.start], false)
    requires s[1] == Segment(t[h.start..h.start + h.len], true)
    requires ValidFrom(m, t, h.start + h.len, s[2..])
    ensures ValidFrom(m, t, last, s)
  {
    var tl := s[1..];
    assert tl[0] == s[1] && tl[1..] == s[2..];
    ConsBold(m, t, h.start, h.len, tl);
    ConsPlain(m, t, last, h.start - last, s);
  }

  /** The scan produces the correct emphasis of the text from `last` on. */
  lemma {:induction false} ScanValid(m: seq<Option<nat>>, t: string, last: nat)
    requires IsMatchTable(m, t) && last <= |t|
    ensures ValidFrom(m, t, last, Scan(m, t, last))
    decreases |t| - last
  {
    match FirstHit(m, last)
    case None =>
      ScanEndValid(m, t, last);
    case Some(h) =>
      assert m[h.start] == Some(h.len);
      ScanValid(m, t, h.start + h.len);
      ScanStepValid(m, t, last, h);
  }

  /**
   * `emphasizeHtml`: lossless, one plain segment when there is no regex or
   * no text, otherwise the correct emphasis of the whole text under the
   * regex's matches.
   */
  function Emphasize(text: string, regex: Option<KeywordRegex>): (r: seq<Segment>)
    ensures Concat(r) == text
    ensures regex.None? || text == "" ==> r == [Segment(text, false)]
    ensures regex.Some? && text != "" ==> ValidFrom(MatchTable(regex.value, text), text, 0, r)
  {
    if regex.None? || text == "" then
      assert Concat([Segment(text, false)]) == text + Concat([]);
      [Segment(text, false)]
    else
      var m := MatchTable(regex.value, text);
      var r := Scan(m, text, 0);
      ScanValid(m, text, 0);
      ValidConcat(m, text, 0, r);
      r
  }

  /** Lossless: the segments of a correct emphasis concatenate to the text they cover. */
  lemma {:induction false} ValidConcat(m: seq<Option<nat>>, t: string, pos: nat, segs: seq<Segment>)
    requires |m| == |t| + 1 && pos <= |t| && ValidFrom(m, t, pos, segs)
    ensures Concat(segs) == t[pos..]
    decreases |segs|
  {
    if segs != [] {
      var n := |segs[0].text|;
      ValidConcat(m, t, pos + n, segs[1..]);
      assert t[pos..] == t[pos..pos + n] + t[pos + n..];
    }
  }

  /** A correct emphasis has no empty segment and never two plain segments in a row. */
  lemma {:induction false} ValidShape(m: seq<Option<nat>>, t: string, pos: nat, segs: seq<Segment>)
    requires |m| == |t| + 1 && pos <= |t| && ValidFrom(m, t, pos, segs)
    ensures forall i :: 0 <= i < |segs| ==> segs[i].text != ""
    ensures forall i :: 0 <= i < |segs| - 1 ==> segs[i].bold || segs[i + 1].bold
    decreases |segs|
  {
    if segs != [] {
      var n := |segs[0].text|;
      ValidShape(m, t, pos + n, segs[1..]);
      assert forall i :: 1 <= i < |segs| ==> segs[i] == segs[1..][i - 1];
    }
  }

  /** In a correct emphasis a plain segment is followed by a match or by the end of the text. */
  lemma AfterPlain(m: seq<Option<nat>>, t: string, pos: nat, segs: seq<Segment>)
    requires |m| == |t| + 1 && pos <= |t| && ValidFrom(m, t, pos, segs)
    requires segs != [] && !segs[0].bold
    ensures pos + |segs[0].text| == |t| || m[pos + |segs[0].text|].Some?
  {
    if |segs| > 1 {
      assert segs[1..][0].bold;
    }
  }

  /** A correct emphasis is unique: the contract determines the segments. */
  lemma {:induction false} ValidUnique(m: seq<Option<nat>>, t: string, pos: nat, a: seq<Segment>, b: seq<Segment>)
    requires |m| == |t| + 1 && pos <= |t| && ValidFrom(m, t, pos, a) && ValidFrom(m, t, pos, b)
    ensures a == b
    decreases |t| - pos
  {
    if a != [] && b != [] {
      var n := |a[0].text|;
      if !a[0].bold && !b[0].bold {
        AfterPlain(m, t, pos, a);
        AfterPlain(m, t, pos, b);
      }
      assert a[0] == b[0];
      ValidUnique(m, t, pos + n, a[1..], b[1..]);
      assert a == [a[0]] + a[1..] && b == [b[0]] + b[1..];
    }
  }

  /** `safeSegments`: a non-string becomes one plain segment holding `String(text ?? "")`. */
  function SafeSegments(text: JsValue, regex: Option<KeywordRegex>): (r: seq<Segment>)
    ensures text.Str? ==> r == Emphasize(text.s, regex)
    ensures !text.Str? ==> |r| == 1 && !r[0].bold
    ensures !text.Str? ==> r[0].text == if IsNullish(text) then "" else ToJsString(text)
  {
    if text.Str? then Emphasize(text.s, regex)
    else [Segment(ToJsString(Coalesce(text, Str(""))), false)]
  }

  /**
   * `splitForPdf`: the same loop as `emphasizeHtml` collecting plain
   * strings; its parts are the texts of the emphasis segments.
   */
  method SplitForPdf(text: string, regex: Option<KeywordRegex>) returns (parts: seq<string>)
    ensures parts == Texts(Emphasize(text, regex))
  {
    if regex.None? || text == "" {
      return [text];
    }
    parts := CollectParts(MatchTable(regex.value, text), text);
  }

  /** The `exec` loop of `splitForPdf`, each `exec` being a `FirstHit` on the match table. */
  method CollectParts(table: seq<Option<nat>>, text: string) returns (parts: seq<string>)
    requires IsMatchTable(table, text)
    ensures parts == Texts(Scan(table, text, 0))
  {
    parts := [];
    var last := 0;
    var m := FirstHit(table, last);
    ghost var whole := Texts(Scan(table, text, 0));
    while m.Some?
      invariant last <= |text|
      invariant m == FirstHit(table, last)
      invariant parts + Texts(Scan(table, text, last)) == whole
      decreases |text| - last
    {
      var start, len := m.value.start, m.value.len;
      ScanTexts(table, text, last, m.value);
      var turn := TurnTexts(text, last, m.value);
      PartsStep(parts, turn, Texts(Scan(table, text, start + len)), Texts(Scan(table, text, last)), whole);
      parts := parts + turn;
      last := start + len;
      m := FirstHit(table, last);
    }
    TextsEnd(table, text, last);
    parts := parts + TailText(text, last);
  }

  lemma PartsStep(parts: seq<string>, turn: seq<string>, rest: seq<string>, now: seq<string>, whole: seq<string>)
    requires parts + now == whole && now == turn + rest
    ensures (parts + turn) + rest == whole
  {
    Associative(parts, turn, rest);
  }

  /** What is left after the last match: the rest of the text, unless it is empty. */
  function TailText(t: string, last: nat): seq<string>
    requires last <= |t|
  {
    if last < |t| then [t[last..]] else []
  }

  lemma TextsEnd(m: seq<Option<nat>>, t: string, last: nat)
    requires IsMatchTable(m, t) && last <= |t| && FirstHit(m, last).None?
    ensures Texts(Scan(m, t, last)) == TailText(t, last)
  {
    ScanEnd(m, t, last);
    if last < |t| {
      assert [Segment(t[last..], false)][1..] == [];
    }
  }

  /** The texts one turn of the loop contributes: the text before the match, if any, then the match. */
  function TurnTexts(t: string, last: nat, h: Hit): seq<string>
    requires last <= h.start && h.start + h.len <= |t|
  {
    if h.start > last then [t[last..h.start], t[h.start..h.start + h.len]] else [t[h.start..h.start + h.len]]
  }

  lemma ScanTexts(m: seq<Option<nat>>, t: string, last: nat, h: Hit)
    requires IsMatchTable(m, t) && last <= |t| && FirstHit(m, last) == Some(h)
    ensures last <= h.start && 0 < h.len && h.start + h.len <= |t|
    ensures Texts(Scan(m, t, last)) == TurnTexts(t, last, h) + Texts(Scan(m, t, h.start + h.len))
  {
    var s := Scan(m, t, last);
    if h.start > last {
      ScanStepPlain(m, t, last, h);
      TextsTwo(s, Scan(m, t, h.start + h.len));
    } else {
      ScanStepBold(m, t, last, h);
      TextsOne(s, Scan(m, t, h.start + h.len));
    }
  }

  lemma TextsOne(s: seq<Segment>, rest: seq<Segment>)
    requires |s| >= 1 && s[1..] == rest
    ensures Texts(s) == [s[0].text] + Texts(rest)
  {
  }

  lemma TextsTwo(s: seq<Segment>, rest: seq<Segment>)
    requires |s| >= 2 && s[2..] == rest
    ensures Texts(s) == [s[0].text, s[1].text] + Texts(rest)
  {
    TextsOne(s[1..], rest);
    assert s[1..][0] == s[1] && s[1..][1..] == s[2..];
    assert [s[0].text] + ([s[1].text] + Texts(rest)) == [s[0].text, s[1].text] + Texts(rest);
  }

  /** The successive matches the scan finds from `from` on. */
  function Hits(m: seq<Option<nat>>, t: string, from: nat): (hs: seq<Hit>)
    requires IsMatchTable(m, t) && from <= |t|
    ensures forall k :: 0 <= k < |hs| ==> from <= hs[k].start && hs[k].start + hs[k].len <= |t|
    ensures forall k :: 0 <= k < |hs| ==> m[hs[k].start] == Some(hs[k].len)
    ensures forall k :: 0 <= k < |hs| - 1 ==> hs[k].start + hs[k].len <= hs[k + 1].start
    decreases |t| - from
  {
    match FirstHit(m, from)
    case None => []
    case Some(h) => [h] + Hits(m, t, h.start + h.len)
  }

  function BoldTexts(segs: seq<Segment>): seq<string> {
    if segs == [] then []
    else (if segs[0].bold then [segs[0].text] else []) + BoldTexts(segs[1..])
  }

  function HitTexts(t: string, hs: seq<Hit>): seq<string>
    requires forall k :: 0 <= k < |hs| ==> hs[k].start + hs[k].len <= |t|
  {
    if hs == [] then [] else [t[hs[0].start..hs[0].start + hs[0].len]] + HitTexts(t, hs[1..])
  }

  lemma HitsStep(m: seq<Option<nat>>, t: string, from: nat, h: Hit)
    requires IsMatchTable(m, t) && from <= |t| && FirstHit(m, from) == Some(h)
    ensures h.start + h.len <= |t|
    ensures HitTexts(t, Hits(m, t, from)) == [t[h.start..h.start + h.len]] + HitTexts(t, Hits(m, t, h.start + h.len))
  {
    var hs := Hits(m, t, from);
    assert hs == [h] + Hits(m, t, h.start + h.len);
    assert hs[0] == h && hs[1..] == Hits(m, t, h.start + h.len);
  }

  /** The bold texts one turn of the loop contributes. */
  lemma ScanBolds(m: seq<Option<nat>>, t: string, last: nat, h: Hit)
    requires IsMatchTable(m, t) && last <= |t| && FirstHit(m, last) == Some(h)
    ensures last <= h.start && 0 < h.len && h.start + h.len <= |t|
    ensures BoldTexts(Scan(m, t, last)) == [t[h.start..h.start + h.len]] + BoldTexts(Scan(m, t, h.start + h.len))
  {
    var s := Scan(m, t, last);
    if h.start > last {
      ScanStepPlain(m, t, last, h);
      BoldsTwo(s, Scan(m, t, h.start + h.len));
    } else {
      ScanStepBold(m, t, last, h);
      BoldsOne(s, Scan(m, t, h.start + h.len));
    }
  }

  lemma BoldsOne(s: seq<Segment>, rest: seq<Segment>)
    requires |s| >= 1 && s[0].bold && s[1..] == rest
    ensures BoldTexts(s) == [s[0].text] + BoldTexts(rest)
  {
  }

  lemma BoldsTwo(s: seq<Segment>, rest: seq<Segment>)
    requires |s| >= 2 && !s[0].bold && s[1].bold && s[2..] == rest
    ensures BoldTexts(s) == [s[1].text] + BoldTexts(rest)
  {
    BoldsOne(s[1..], rest);
    assert s[1..][0] == s[1] && s[1..][1..] == s[2..];
    assert BoldTexts(s) == [] + BoldTexts(s[1..]);
  }

  /**
   * The bold segments are exactly the successive non-overlapping matches,
   * each search resuming where the previous match ended.
   */
  lemma {:induction false} BoldSegmentsAreHits(m: seq<Option<nat>>, t: string, from: nat)
    requires IsMatchTable(m, t) && from <= |t|
    ensures BoldTexts(Scan(m, t, from)) == HitTexts(t, Hits(m, t, from))
    decreases |t| - from
  {
    match FirstHit(m, from)
    case None =>
      NoBolds(m, t, from);
    case Some(h) =>
      BoldSegmentsAreHits(m, t, h.start + h.len);
      BoldsStep(m, t, from, h);
  }

  lemma NoBolds(m: seq<Option<nat>>, t: string, from: nat)
    requires IsMatchTable(m, t) && from <= |t| && FirstHit(m, from).None?
    ensures BoldTexts(Scan(m, t, from)) == [] == HitTexts(t, Hits(m, t, from))
  {
    ScanEnd(m, t, from);
    if from < |t| {
      BoldTextsPlain(Segment(t[from..], false));
    }
  }

  lemma BoldsStep(m: seq<Option<nat>>, t: string, from: nat, h: Hit)
    requires IsMatchTable(m, t) && from <= |t| && FirstHit(m, from) == Some(h)
    requires h.start + h.len <= |t|
    requires BoldTexts(Scan(m, t, h.start + h.len)) == HitTexts(t, Hits(m, t, h.start + h.len))
    ensures BoldTexts(Scan(m, t, from)) == HitTexts(t, Hits(m, t, from))
  {
    ScanBolds(m, t, from, h);
    HitsStep(m, t, from, h);
  }

  lemma BoldTextsPlain(s: Segment)
    requires !s.bold
    ensures BoldTexts([s]) == []
  {
    assert [s][1..] == [];
  }
}
