/**
 * The keyword matcher of `buildKeywordRegex`: the regex `\b(k1|...|kn)\b`
 * with flags `gi`, built from the trimmed, non-empty string keywords.
 *
 * The regex is represented by its alternatives. `Source` is the pattern text
 * the function assembles (every syntax character escaped); `ParseSource`
 * reads such a pattern as an alternation of literals, and the round trip
 * between the two shows that every keyword is matched literally. Matching
 * follows the ECMAScript semantics restricted to these patterns: the
 * leftmost position wins, and at one position the first alternative (in
 * keyword order) that is followed by a word boundary wins.
 */
module KeywordRegex {
  import opened Wrappers
  import opened Strings
  import opened JsValues
  import Seqs

  datatype Regex = Regex(words: seq<string>)

  predicate WellFormed(words: seq<string>) {
    |words| > 0 && forall i :: 0 <= i < |words| ==> words[i] != ""
  }

  /** A compiled keyword regex: at least one alternative, none empty. */
  type KeywordRegex = r: Regex | WellFormed(r.words) witness Regex(["_"])

  /** What `map((w) => typeof w === "string" ? w.trim() : "")` makes of one keyword. */
  function Candidate(v: JsValue): string {
    if v.Str? then Trim(v.s) else ""
  }

  /** The keyword list after the `map` and `.filter(Boolean)`, in order. */
  function Keywords(items: seq<JsValue>): (ws: seq<string>)
    ensures forall j :: 0 <= j < |ws| ==> ws[j] != "" && Trim(ws[j]) == ws[j]
    ensures forall w :: w in ws <==> w != "" && exists i :: 0 <= i < |items| && Candidate(items[i]) == w
  {
    if items == [] then []
    else
      var w := Candidate(items[0]);
      assert Trim(w) == w by {
        if items[0].Str? {
          TrimIdempotent(items[0].s);
        }
      }
      var rest := Keywords(items[1..]);
      assert forall i :: 0 <= i < |items| - 1 ==> items[1..][i] == items[i + 1];
      (if w != "" then [w] else []) + rest
  }

  /** Keywords are kept list by list: order and repeats survive, so the alternation order is the input's. */
  lemma {:induction false} KeywordsConcat(a: seq<JsValue>, b: seq<JsValue>)
    ensures Keywords(a + b) == Keywords(a) + Keywords(b)
  {
    if a != [] {
      assert (a + b)[0] == a[0];
      assert (a + b)[1..] == a[1..] + b;
      KeywordsConcat(a[1..], b);
    } else {
      assert a + b == b;
    }
  }

  /** One keyword gives its trim, or nothing when that is empty or it is not a string. */
  lemma KeywordsSingle(v: JsValue)
    ensures Keywords([v]) == if Candidate(v) == "" then [] else [Candidate(v)]
  {
    assert [v][1..] == [];
  }

  /**
   * `buildKeywordRegex`: no regex for a non-array or when no keyword is left
   * after trimming; otherwise the alternatives are exactly the non-empty
   * trimmed string keywords.
   */
  function BuildKeywordRegex(keywords: JsValue): (r: Option<KeywordRegex>)
    ensures r.None? <==>
      !keywords.Arr? || forall i :: 0 <= i < |keywords.items| ==> Candidate(keywords.items[i]) == ""
    ensures r.Some? ==> r.value.words == Keywords(keywords.items)
  {
    if !keywords.Arr? then None
    else
      var words := Keywords(keywords.items);
      if |words| == 0 then
        assert forall i :: 0 <= i < |keywords.items| ==> Candidate(keywords.items[i]) == "" by {
          forall i | 0 <= i < |keywords.items| ensures Candidate(keywords.items[i]) == "" {
            var w := Candidate(keywords.items[i]);
            assert w != "" ==> w in words;
          }
        }
        None
      else
        assert words[0] in words;
        Some(Regex(words))
  }

  /** The characters `esc` escapes: `. * + ? ^ $ { } ( ) | [ ] \`. */
  predicate IsSyntaxChar(c: char) {
    c == '.' || c == '*' || c == '+' || c == '?' || c == '^' || c == '$' || c == '{'
    || c == '}' || c == '(' || c == ')' || c == '|' || c == '[' || c == ']' || c == '\\'
  }

  /** `esc`: a backslash before every syntax character. */
  function Escape(w: string): string {
    if w == [] then []
    else (if IsSyntaxChar(w[0]) then ['\\', w[0]] else [w[0]]) + Escape(w[1..])
  }

  function EscapeAll(words: seq<string>): (r: seq<string>)
    ensures |r| == |words|
    ensures forall i :: 0 <= i < |words| ==> r[i] == Escape(words[i])
  {
    seq(|words|, i requires 0 <= i < |words| => Escape(words[i]))
  }

  /** The pattern text handed to `new RegExp`. */
  function Source(re: KeywordRegex): string {
    "\\b(" + Join(EscapeAll(re.words), "|") + ")\\b"
  }

  /**
   * Reads `p` as an alternation of literals: a backslash must escape a
   * syntax character, `|` separates alternatives, and any other syntax
   * character (an operator) makes `p` something other than literals.
   */
  function Literals(p: string, cur: string): Option<seq<string>>
    decreases |p|
  {
    if p == [] then Some([cur])
    else if p[0] == '\\' then
      if |p| >= 2 && IsSyntaxChar(p[1]) then Literals(p[2..], cur + [p[1]]) else None
    else if p[0] == '|' then
      match Literals(p[1..], "")
      case Some(rest) => Some([cur] + rest)
      case None => None
    else if IsSyntaxChar(p[0]) then None
    else Literals(p[1..], cur + [p[0]])
  }

  /** Reads a pattern `\b(...)\b` whose body is an alternation of literals. */
  function ParseSource(src: string): Option<seq<string>> {
    if |src| >= 6 && src[..3] == "\\b(" && src[|src| - 3..] == ")\\b" then
      Literals(src[3..|src| - 3], "")
    else None
  }

  lemma {:induction false} EscapeIsLiteral(w: string, rest: string, cur: string)
    ensures Literals(Escape(w) + rest, cur) == Literals(rest, cur + w)
    decreases |w|
  {
    if w == [] {
      assert Escape(w) + rest == rest;
      assert cur + w == cur;
    } else {
      var c := w[0];
      var q := Escape(w[1..]) + rest;
      EscapeIsLiteral(w[1..], rest, cur + [c]);
      assert cur + [c] + w[1..] == cur + w;
      if IsSyntaxChar(c) {
        EscapeHead(w, rest, ['\\', c]);
        LiteralsEscaped(c, q, cur);
      } else {
        EscapeHead(w, rest, [c]);
        LiteralsPlain(c, q, cur);
      }
    }
  }

  lemma EscapeHead(w: string, rest: string, head: string)
    requires w != [] && head == if IsSyntaxChar(w[0]) then ['\\', w[0]] else [w[0]]
    ensures Escape(w) + rest == head + (Escape(w[1..]) + rest)
  {
  }

  lemma LiteralsEscaped(c: char, q: string, cur: string)
    requires IsSyntaxChar(c)
    ensures Literals(['\\', c] + q, cur) == Literals(q, cur + [c])
  {
    var p := ['\\', c] + q;
    assert p[0] == '\\' && p[1] == c && p[2..] == q;
  }

  lemma LiteralsPlain(c: char, q: string, cur: string)
    requires !IsSyntaxChar(c)
    ensures Literals([c] + q, cur) == Literals(q, cur + [c])
  {
    var p := [c] + q;
    assert p[0] == c && p[1..] == q;
  }

  lemma {:induction false} AlternationIsLiteral(words: seq<string>)
    requires |words| > 0
    ensures Literals(Join(EscapeAll(words), "|"), "") == Some(words)
    decreases |words|
  {
    var es := EscapeAll(words);
    if |words| == 1 {
      EscapeIsLiteral(words[0], "", "");
      assert Join(es, "|") == Escape(words[0]);
      assert words == [words[0]];
      assert Escape(words[0]) + "" == Escape(words[0]);
      assert "" + words[0] == words[0];
    } else {
      var tail := Join(es[1..], "|");
      assert es[1..] == EscapeAll(words[1..]);
      EscapeIsLiteral(words[0], "|" + tail, "");
      assert Join(es, "|") == Escape(words[0]) + ("|" + tail);
      assert ("|" + tail)[1..] == tail;
      AlternationIsLiteral(words[1..]);
      assert "" + words[0] == words[0];
      assert [words[0]] + words[1..] == words;
    }
  }

  /** Escaping makes the keywords literal: the pattern reads back as exactly the keywords. */
  lemma SourceRoundTrip(re: KeywordRegex)
    ensures ParseSource(Source(re)) == Some(re.words)
  {
    var body := Join(EscapeAll(re.words), "|");
    var src := Source(re);
    assert src[..3] == "\\b(";
    assert src[|src| - 3..] == ")\\b";
    assert src[3..|src| - 3] == body;
    AlternationIsLiteral(re.words);
  }

  /** `\b` at position `i`: exactly one of the neighbouring characters is a word character. */
  predicate BoundaryAt(t: string, i: nat)
    requires i <= |t|
  {
    (i > 0 && IsWordChar(t[i - 1])) != (i < |t| && IsWordChar(t[i]))
  }

  /** Character equality under the `i` flag (ASCII case folding). */
  predicate SameIgnoringCase(a: char, b: char) {
    UpperChar(a) == UpperChar(b)
  }

  predicate LiteralAt(t: string, i: nat, w: string) {
    i + |w| <= |t| && forall j :: 0 <= j < |w| ==> SameIgnoringCase(t[i + j], w[j])
  }

  /** Alternative `w` of `\b(...)\b` matches at `i`. */
  predicate AlternativeAt(t: string, i: nat, w: string)
    requires i <= |t|
  {
    BoundaryAt(t, i) && LiteralAt(t, i, w) && BoundaryAt(t, i + |w|)
  }

  /** The first alternative, from index `k` on, that matches at `i`. */
  function FirstAlternativeFrom(words: seq<string>, t: string, i: nat, k: nat): (r: Option<nat>)
    requires i <= |t| && k <= |words|
    ensures r.Some? ==> k <= r.value < |words| && AlternativeAt(t, i, words[r.value])
    ensures r.Some? ==> forall k' {:trigger AlternativeAt(t, i, words[k'])} :: k <= k' < r.value ==> !AlternativeAt(t, i, words[k'])
    ensures r.None? ==> forall k' {:trigger AlternativeAt(t, i, words[k'])} :: k <= k' < |words| ==> !AlternativeAt(t, i, words[k'])
    decreases |words| - k
  {
    if k == |words| then None
    else if AlternativeAt(t, i, words[k]) then Some(k)
    else FirstAlternativeFrom(words, t, i, k + 1)
  }

  /** Leftmost-first alternation: the index of the first keyword that matches at `i`. */
  function FirstAlternative(re: KeywordRegex, t: string, i: nat): (r: Option<nat>)
    requires i <= |t|
    ensures r.Some? ==> r.value < |re.words| && AlternativeAt(t, i, re.words[r.value])
    ensures r.Some? ==> forall k {:trigger AlternativeAt(t, i, re.words[k])} :: 0 <= k < r.value ==> !AlternativeAt(t, i, re.words[k])
    ensures r.None? ==> forall k {:trigger AlternativeAt(t, i, re.words[k])} :: 0 <= k < |re.words| ==> !AlternativeAt(t, i, re.words[k])
  {
    FirstAlternativeFrom(re.words, t, i, 0)
  }

  /** The length of the match of the regex anchored at `i`, if there is one. */
  function MatchAt(re: KeywordRegex, t: string, i: nat): (r: Option<nat>)
    requires i <= |t|
    ensures r.Some? ==> 0 < r.value && i + r.value <= |t|
    ensures r.Some? ==> exists k :: (0 <= k < |re.words| && AlternativeAt(t, i, re.words[k]) && r.value == |re.words[k]| &&
      forall k' {:trigger AlternativeAt(t, i, re.words[k'])} :: 0 <= k' < k ==> !AlternativeAt(t, i, re.words[k']))
    ensures r.None? <==> forall k :: 0 <= k < |re.words| ==> !AlternativeAt(t, i, re.words[k])
  {
    match FirstAlternative(re, t, i)
    case None => None
    case Some(k) => Some(|re.words[k]|)
  }

  /**
   * Alternatives are tried in keyword order, not by length: with `go` listed
   * before `go lang`, the regex matches only `go` at the start of `"go lang"`.
   */
  lemma FirstListedWins()
    ensures MatchAt(Regex(["go", "go lang"]), "go lang", 0) == Some(2)
  {
    var re: KeywordRegex := Regex(["go", "go lang"]);
    assert AlternativeAt("go lang", 0, re.words[0]);
  }

  /** A match: where it starts and how long it is. */
  datatype Hit = Hit(start: nat, len: nat)

  /**
   * A table of anchored matches for `t`: one entry per position, end of text
   * included; a match is never empty and never runs past the end.
   */
  predicate IsMatchTable(m: seq<Option<nat>>, t: string) {
    |m| == |t| + 1 && forall p :: 0 <= p < |m| && m[p].Some? ==> 0 < m[p].value && p + m[p].value <= |t|
  }

  /** The anchored match of the regex at every position of `t`. */
  function MatchTable(re: KeywordRegex, t: string): (m: seq<Option<nat>>)
    ensures IsMatchTable(m, t)
    ensures forall p :: 0 <= p <= |t| ==> m[p] == MatchAt(re, t, p)
  {
    seq(|t| + 1, p requires 0 <= p <= |t| => MatchAt(re, t, p))
  }

  /** The leftmost entry of the table at or after `from` that holds a match. */
  function FirstHit(m: seq<Option<nat>>, from: nat): (r: Option<Hit>)
    requires from < |m|
    ensures r.Some? ==> from <= r.value.start < |m| && m[r.value.start] == Some(r.value.len)
    ensures r.Some? ==> forall p :: from <= p < r.value.start ==> m[p].None?
    ensures r.None? ==> forall p :: from <= p < |m| ==> m[p].None?
    decreases |m| - from
  {
    match m[from]
    case Some(n) => Some(Hit(from, n))
    case None => if from == |m| - 1 then None else FirstHit(m, from + 1)
  }

  /**
   * `regex.exec(text)` with `lastIndex == from`: the leftmost match starting
   * at or after `from`, or none.
   */
  function Exec(re: KeywordRegex, t: string, from: nat): (r: Option<Hit>)
    requires from <= |t|
    ensures r.Some? ==> from <= r.value.start && 0 < r.value.len && r.value.start + r.value.len <= |t|
    ensures r.Some? ==> MatchAt(re, t, r.value.start) == Some(r.value.len)
    ensures r.Some? ==> forall p :: from <= p < r.value.start ==> MatchAt(re, t, p).None?
    ensures r.None? ==> forall p :: from <= p <= |t| ==> MatchAt(re, t, p).None?
  {
    FirstHit(MatchTable(re, t), from)
  }
}
