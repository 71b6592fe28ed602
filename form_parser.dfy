/**
 * The form parser of the content script: it walks the question containers in document
 * order and turns each into a Question record, with a type found by a fixed first-match
 * cascade, a question text and, for option-bearing types, the option labels.
 */
module FormParser {
  import opened Wrappers
  import opened Strings
  import opened Dom

  datatype QType = ShortAnswer | Paragraph | Mcq | Checkboxes | Dropdown | Listbox | Grid | Unknown

  /** `options` is None where the parser leaves the field out (text and paragraph questions). */
  datatype Question = Question(id: string, qtype: QType, questionText: string, options: Option<seq<string>>)

  /** The id `question-${idx}` of the container at position `idx`. */
  function QuestionId(idx: nat): string {
    "question-" + NatToString(idx)
  }

  /** All indices in `nodes` are elements of `c`. */
  predicate InContainer(c: Container, nodes: seq<nat>) {
    forall k :: 0 <= k < |nodes| ==> nodes[k] < |c|
  }

  // ---------------------------------------------------------------------------
  // getVisibleText and findQuestionText
  // ---------------------------------------------------------------------------

  /** getVisibleText: the trimmed aria-label if it has a non-space character, else the trimmed text. */
  function VisibleText(e: Elem): (r: string)
    ensures IsTrimmed(r)
    ensures |r| == 0 <==> |Trim(Attr(e, "aria-label"))| == 0 && |Trim(e.text)| == 0
    ensures |Trim(Attr(e, "aria-label"))| != 0 ==> r == Trim(Attr(e, "aria-label"))
    ensures |Trim(Attr(e, "aria-label"))| == 0 ==> r == Trim(e.text)
  {
    var a := Trim(Attr(e, "aria-label"));
    if |a| != 0 then a else Trim(e.text)
  }

  /** The visible texts of `nodes`, in order (an index outside the container reads as ""). */
  function VisibleTexts(c: Container, nodes: seq<nat>): (r: seq<string>)
    ensures |r| == |nodes|
  {
    if nodes == [] then []
    else
      var n := nodes[|nodes| - 1];
      VisibleTexts(c, nodes[..|nodes| - 1]) + [if n < |c| then VisibleText(c[n]) else ""]
  }

  /** The scan of findQuestionText: keep a text when it is longer than the best so far and under 500. */
  function Longest(ts: seq<string>): string {
    if ts == [] then ""
    else
      var best := Longest(ts[..|ts| - 1]);
      var t := ts[|ts| - 1];
      if |t| > |best| && |t| < 500 then t else best
  }

  /** No text is both non-empty and under 500 characters. */
  predicate NoneFits(ts: seq<string>) {
    forall j :: 0 <= j < |ts| ==> ts[j] == "" || |ts[j]| >= 500
  }

  /** `best` is the text at an earliest longest position. */
  predicate LongestAt(ts: seq<string>, best: string) {
    exists i :: 0 <= i < |ts| && ts[i] == best && EarliestLongest(ts, i)
  }

  /**
   * Longest picks the longest text strictly under 500 characters, the earliest one on a tie,
   * and gives "" exactly when every text is empty or 500 characters or more.
   */
  lemma {:induction false} LongestIsEarliestLongest(ts: seq<string>)
    ensures Longest(ts) == "" ==> NoneFits(ts)
    ensures Longest(ts) != "" ==> LongestAt(ts, Longest(ts))
  {
    if ts != [] {
      var init := ts[..|ts| - 1];
      LongestIsEarliestLongest(init);
      assert ts == init + [ts[|ts| - 1]];
      LongestExtend(init, ts[|ts| - 1]);
    }
  }

  /** One step of the scan keeps the earliest longest text. */
  lemma LongestExtend(init: seq<string>, t: string)
    requires Longest(init) == "" ==> NoneFits(init)
    requires Longest(init) != "" ==> LongestAt(init, Longest(init))
    ensures Longest(init + [t]) == "" ==> NoneFits(init + [t])
    ensures Longest(init + [t]) != "" ==> LongestAt(init + [t], Longest(init + [t]))
  {
    LongestStep(init, t);
    var ts := init + [t];
    var best := Longest(init);
    if |t| > |best| && |t| < 500 {
      if best != "" {
        var i :| 0 <= i < |init| && init[i] == best && EarliestLongest(init, i);
        EarliestLongestLast(init, t, i);
      } else {
        EarliestLongestFirst(init, t);
      }
      assert ts[|init|] == t;
    } else if best != "" {
      var i :| 0 <= i < |init| && init[i] == best && EarliestLongest(init, i);
      EarliestLongestKept(init, t, i);
      assert ts[i] == best;
    } else {
      forall j | 0 <= j < |ts| ensures ts[j] == "" || |ts[j]| >= 500 {
        if j < |init| { assert ts[j] == init[j]; }
      }
    }
  }

  /** A text longer than the earliest longest one under 500 becomes the earliest longest. */
  lemma EarliestLongestLast(init: seq<string>, t: string, i: nat)
    requires i < |init| && EarliestLongest(init, i) && |init[i]| < |t| < 500
    ensures EarliestLongest(init + [t], |init|)
  {
    var ts := init + [t];
    forall j | 0 <= j < |init| ensures ts[j] == init[j] { }
  }

  /** A text under 500 after texts that are all empty or too long becomes the earliest longest. */
  lemma EarliestLongestFirst(init: seq<string>, t: string)
    requires NoneFits(init)
    requires 0 < |t| < 500
    ensures EarliestLongest(init + [t], |init|)
  {
    var ts := init + [t];
    forall j | 0 <= j < |init| ensures ts[j] == init[j] { }
  }

  /** A text that is not longer, or not under 500, leaves the earliest longest in place. */
  lemma EarliestLongestKept(init: seq<string>, t: string, i: nat)
    requires i < |init| && EarliestLongest(init, i) && !(|t| > |init[i]| && |t| < 500)
    ensures EarliestLongest(init + [t], i)
  {
    var ts := init + [t];
    forall j | 0 <= j < |init| ensures ts[j] == init[j] { }
  }

  /** `ts[i]` is under 500, no text under 500 is longer, and every earlier one under 500 is shorter. */
  predicate EarliestLongest(ts: seq<string>, i: nat)
    requires i < |ts|
  {
    && |ts[i]| < 500
    && (forall j :: 0 <= j < |ts| && |ts[j]| < 500 ==> |ts[j]| <= |ts[i]|)
    && (forall j :: 0 <= j < i && |ts[j]| < 500 ==> |ts[j]| < |ts[i]|)
  }

  /** `.split('\n').map(s => s.trim()).find(Boolean) || ''` over already split lines. */
  function FirstNonEmptyLine(lines: seq<string>): (r: string)
    ensures r != "" ==> exists k :: 0 <= k < |lines| && r == Trim(lines[k])
    ensures r == "" <==> forall k :: 0 <= k < |lines| ==> Trim(lines[k]) == ""
  {
    if lines == [] then ""
    else if Trim(lines[0]) != "" then Trim(lines[0])
    else FirstNonEmptyLine(lines[1..])
  }

  /** Every line before `k` trims to "". */
  predicate BlankBefore(lines: seq<string>, k: nat)
    requires k <= |lines|
  {
    forall j :: 0 <= j < k ==> Trim(lines[j]) == ""
  }

  lemma BlankBeforeCons(lines: seq<string>, k: nat)
    requires 0 < |lines| && k < |lines| && Trim(lines[0]) == "" && BlankBefore(lines[1..], k)
    ensures BlankBefore(lines, k + 1)
  {
    forall j | 0 < j < k + 1
      ensures Trim(lines[j]) == ""
    {
      assert lines[j] == lines[1..][j - 1];
    }
  }

  /** `find(Boolean)` gives the first line that trims to a non-empty string. */
  lemma {:induction false} FirstNonEmptyLineIsFirst(lines: seq<string>)
    ensures FirstNonEmptyLine(lines) != "" ==>
      exists k :: 0 <= k < |lines| && FirstNonEmptyLine(lines) == Trim(lines[k]) && BlankBefore(lines, k)
  {
    if lines != [] && Trim(lines[0]) == "" {
      var rest := lines[1..];
      FirstNonEmptyLineIsFirst(rest);
      if FirstNonEmptyLine(rest) != "" {
        var k :| 0 <= k < |rest| && FirstNonEmptyLine(rest) == Trim(rest[k]) && BlankBefore(rest, k);
        assert lines[k + 1] == rest[k];
        BlankBeforeCons(lines, k);
      }
    } else if lines != [] {
      assert BlankBefore(lines, 0);
    }
  }

  const TitleSel: seq<Sel> := [Class("M7eMe")]
  const HeadingSel: seq<Sel> := [Role("heading"), HasAttr("data-params"), HasAttr("data-question-title")]

  /**
   * findQuestionText: the `.M7eMe` element's text, else the heading-like element's text, else the
   * longest descendant text under 500 characters, else the first non-empty line of the container.
   */
  function QuestionText(c: Container): string {
    match Query(c, 0, TitleSel)
    case Some(t) => VisibleText(c[t])
    case None =>
      match Query(c, 0, HeadingSel)
      case Some(h) => VisibleText(c[h])
      case None =>
        var best := Longest(VisibleTexts(c, QueryAll(c, 0, [Any])));
        if |best| != 0 then best else FirstNonEmptyLine(Split(VisibleText(c[0]), {'\n'}))
  }

  lemma VisibleTextsStep(c: Container, nodes: seq<nat>, i: nat)
    requires i < |nodes| && nodes[i] < |c|
    ensures VisibleTexts(c, nodes[..i + 1]) == VisibleTexts(c, nodes[..i]) + [VisibleText(c[nodes[i]])]
  {
    assert nodes[..i + 1][..i] == nodes[..i];
  }

  lemma LongestStep(ts: seq<string>, t: string)
    ensures Longest(ts + [t]) == if |t| > |Longest(ts)| && |t| < 500 then t else Longest(ts)
  {
    assert (ts + [t])[..|ts|] == ts;
  }

  /** findQuestionText, with its loop over the container's descendants. */
  method FindQuestionText(c: Container) returns (text: string)
    ensures text == QuestionText(c)
  {
    var title := Query(c, 0, TitleSel);
    if title.Some? {
      return VisibleText(c[title.value]);
    }
    var heading := Query(c, 0, HeadingSel);
    if heading.Some? {
      return VisibleText(c[heading.value]);
    }
    var children := QueryAll(c, 0, [Any]);
    var best := "";
    for i := 0 to |children|
      invariant best == Longest(VisibleTexts(c, children[..i]))
    {
      var t := VisibleText(c[children[i]]);
      VisibleTextsStep(c, children, i);
      LongestStep(VisibleTexts(c, children[..i]), t);
      if |t| > |best| && |t| < 500 {
        best := t;
      }
    }
    assert children[..|children|] == children;
    if |best| != 0 {
      return best;
    }
    return FirstNonEmptyLine(Split(VisibleText(c[0]), {'\n'}));
  }

  // ---------------------------------------------------------------------------
  // collectLabelsFromNodes
  // ---------------------------------------------------------------------------

  const LabelSel: seq<Sel> := [Tag("span"), Tag("label"), Tag("div")]

  /**
   * The label of one node: its raw aria-label, else the trimmed text of the element its
   * aria-labelledby names, else its own trimmed text, else the trimmed text of the first
   * span, label or div under its parent; "" when all of them are empty.
   */
  function NodeLabel(page: Page, c: Container, n: nat): string {
    if n >= |c| then "" else
    var e := c[n];
    var labelledBy := Attr(e, "aria-labelledby");
    var byAria := Attr(e, "aria-label");
    var byRef := if byAria == "" && labelledBy != "" then (if labelledBy in page.byId then Trim(page.byId[labelledBy]) else "") else byAria;
    var byOwn := if byRef == "" then Trim(e.text) else byRef;
    if byOwn == "" then
      match Parent(c, n)
      case Some(p) => (match Query(c, p, LabelSel) case Some(s) => Trim(c[s].text) case None => "")
      case None => ""
    else byOwn
  }

  function NodeLabels(page: Page, c: Container, nodes: seq<nat>): (r: seq<string>)
    ensures |r| == |nodes|
  {
    if nodes == [] then []
    else NodeLabels(page, c, nodes[..|nodes| - 1]) + [NodeLabel(page, c, nodes[|nodes| - 1])]
  }

  /** The non-empty labels of `ls`, each kept at its first occurrence. */
  function Dedupe(ls: seq<string>): seq<string> {
    if ls == [] then []
    else
      var kept := Dedupe(ls[..|ls| - 1]);
      var l := ls[|ls| - 1];
      if l != "" && l !in kept then kept + [l] else kept
  }

  predicate NoDup<T(==)>(s: seq<T>) {
    forall a, b :: 0 <= a < b < |s| ==> s[a] != s[b]
  }

  /** The position of the first occurrence of `x` in `s`. */
  function IndexOf<T(==)>(s: seq<T>, x: T): (i: nat)
    requires x in s
    ensures i < |s| && s[i] == x && x !in s[..i]
  {
    if s[0] == x then 0 else 1 + IndexOf(s[1..], x)
  }

  lemma {:induction false} IndexOfAppend<T>(s: seq<T>, y: T, x: T)
    requires x in s
    ensures IndexOf(s + [y], x) == IndexOf(s, x)
  {
    if s[0] != x {
      assert (s + [y])[1..] == s[1..] + [y];
      IndexOfAppend(s[1..], y, x);
    }
  }

  /**
   * collectLabelsFromNodes keeps exactly the non-empty labels, without duplicates, in the
   * order in which each is first seen.
   */
  lemma DedupeSpec(ls: seq<string>)
    ensures forall k :: 0 <= k < |Dedupe(ls)| ==> Dedupe(ls)[k] != ""
    ensures NoDup(Dedupe(ls))
    ensures forall l :: l in Dedupe(ls) <==> l in ls && l != ""
    ensures forall a, b :: 0 <= a < b < |Dedupe(ls)| ==> IndexOf(ls, Dedupe(ls)[a]) < IndexOf(ls, Dedupe(ls)[b])
  {
    DedupeKeeps(ls);
    DedupeOrder(ls);
  }

  /** Dedupe keeps exactly the non-empty labels, each once. */
  lemma {:induction false} DedupeKeeps(ls: seq<string>)
    ensures forall k :: 0 <= k < |Dedupe(ls)| ==> Dedupe(ls)[k] != ""
    ensures NoDup(Dedupe(ls))
    ensures forall l :: l in Dedupe(ls) <==> l in ls && l != ""
  {
    if ls != [] {
      var init := ls[..|ls| - 1];
      DedupeKeeps(init);
      assert ls == init + [ls[|ls| - 1]];
    }
  }

  /** Every label of `out` occurs in `ls`, and they come in the order of their first occurrences there. */
  predicate InFirstSeenOrder(ls: seq<string>, out: seq<string>) {
    && (forall x :: x in out ==> x in ls)
    && (forall a, b :: 0 <= a < b < |out| ==> IndexOf(ls, out[a]) < IndexOf(ls, out[b]))
  }

  /** Dedupe keeps the labels in the order of their first occurrences. */
  lemma {:induction false} DedupeOrder(ls: seq<string>)
    ensures forall l :: l in Dedupe(ls) ==> l in ls
    ensures forall a, b :: 0 <= a < b < |Dedupe(ls)| ==> IndexOf(ls, Dedupe(ls)[a]) < IndexOf(ls, Dedupe(ls)[b])
  {
    if ls != [] {
      var init := ls[..|ls| - 1];
      var l := ls[|ls| - 1];
      DedupeOrder(init);
      assert ls == init + [l];
      DedupeStep(init, l);
      if l != "" && l !in Dedupe(init) {
        DedupeKeeps(init);
        DedupeOrderNew(init, l, Dedupe(init));
      } else {
        DedupeOrderSame(init, l, Dedupe(init));
      }
    }
  }

  /** Positions of labels already present do not move when a label is appended. */
  lemma IndexOfAppendAll(init: seq<string>, l: string)
    ensures forall x :: x in init ==> IndexOf(init + [l], x) == IndexOf(init, x)
  {
    forall x | x in init ensures IndexOf(init + [l], x) == IndexOf(init, x) {
      IndexOfAppend(init, l, x);
    }
  }

  /** A new label goes to the end, after every label already kept. */
  lemma DedupeOrderNew(init: seq<string>, l: string, kept: seq<string>)
    requires InFirstSeenOrder(init, kept) && l !in init
    ensures InFirstSeenOrder(init + [l], kept + [l])
  {
    var ls := init + [l];
    var out := kept + [l];
    IndexOfAppendAll(init, l);
    assert IndexOf(ls, l) == |init| by {
      assert ls[..|init|] == init;
    }
    forall a, b | 0 <= a < b < |out| ensures IndexOf(ls, out[a]) < IndexOf(ls, out[b]) {
      assert out[a] == kept[a] && kept[a] in init;
      if b < |kept| {
        assert out[b] == kept[b] && kept[b] in init;
      }
    }
  }

  /** A label that is empty or already kept leaves the order as it was. */
  lemma DedupeOrderSame(init: seq<string>, l: string, kept: seq<string>)
    requires InFirstSeenOrder(init, kept)
    ensures InFirstSeenOrder(init + [l], kept)
  {
    IndexOfAppendAll(init, l);
    forall a, b | 0 <= a < b < |kept| ensures IndexOf(init + [l], kept[a]) < IndexOf(init + [l], kept[b]) {
      assert kept[a] in init && kept[b] in init;
    }
  }

  /** collectLabelsFromNodes as a function of the nodes. */
  function CollectLabels(page: Page, c: Container, nodes: seq<nat>): seq<string> {
    Dedupe(NodeLabels(page, c, nodes))
  }

  /** The label cascade collectLabelsFromNodes applies to one node. */
  method LabelOf(page: Page, c: Container, node: nat) returns (text: string)
    requires node < |c|
    ensures text == NodeLabel(page, c, node)
  {
    var n := c[node];
    text := Attr(n, "aria-label");
    var labelledBy := Attr(n, "aria-labelledby");
    if text == "" && labelledBy != "" {
      text := if labelledBy in page.byId then Trim(page.byId[labelledBy]) else "";
    }
    if text == "" {
      text := Trim(n.text);
    }
    var parent := Parent(c, node);
    if text == "" && parent.Some? {
      var sib := Query(c, parent.value, LabelSel);
      if sib.Some? {
        text := Trim(c[sib.value].text);
      }
    }
  }

  lemma NodeLabelsStep(page: Page, c: Container, nodes: seq<nat>, i: nat)
    requires i < |nodes|
    ensures NodeLabels(page, c, nodes[..i + 1]) == NodeLabels(page, c, nodes[..i]) + [NodeLabel(page, c, nodes[i])]
  {
    assert nodes[..i + 1][..i] == nodes[..i];
  }

  lemma DedupeStep(ls: seq<string>, l: string)
    ensures Dedupe(ls + [l]) == if l != "" && l !in Dedupe(ls) then Dedupe(ls) + [l] else Dedupe(ls)
  {
    assert (ls + [l])[..|ls|] == ls;
  }

  /** collectLabelsFromNodes, with its loop pushing labels. */
  method CollectLabelsFromNodes(page: Page, c: Container, nodes: seq<nat>) returns (labels: seq<string>)
    requires InContainer(c, nodes)
    ensures labels == CollectLabels(page, c, nodes)
  {
    labels := [];
    for i := 0 to |nodes|
      invariant labels == Dedupe(NodeLabels(page, c, nodes[..i]))
    {
      var text := LabelOf(page, c, nodes[i]);
      NodeLabelsStep(page, c, nodes, i);
      DedupeStep(NodeLabels(page, c, nodes[..i]), text);
      if text != "" && text !in labels {
        labels := labels + [text];
      }
    }
    assert nodes[..|nodes|] == nodes;
  }

  // ---------------------------------------------------------------------------
  // The &quot;-delimited tokens of a data-params attribute
  // ---------------------------------------------------------------------------

  const Quot: string := "&quot;"

  /** The length of the longest prefix of `s` without an '&'. */
  function AmpFreeLength(s: string): (k: nat)
    ensures k <= |s| && '&' !in s[..k] && (k < |s| ==> s[k] == '&')
  {
    if s == [] || s[0] == '&' then 0
    else
      var k := AmpFreeLength(s[1..]);
      assert s[..k + 1] == [s[0]] + s[1..][..k];
      k + 1
  }

  /**
   * The captures of the global match of `&quot;([^&]+?)&quot;`: scanning left to right, a match
   * at a position needs `&quot;`, one or more characters other than '&', then `&quot;`; after a
   * match the scan resumes behind it, after a failure one character further on.
   */
  function QuotTokens(s: string): (r: seq<string>)
    ensures forall k :: 0 <= k < |r| ==> r[k] != "" && '&' !in r[k]
    decreases |s|
  {
    if s == [] then []
    else if StartsWith(s, Quot) then
      var rest := s[6..];
      var k := AmpFreeLength(rest);
      if k >= 1 && StartsWith(rest[k..], Quot) then [rest[..k]] + QuotTokens(rest[k + 6..])
      else QuotTokens(s[1..])
    else QuotTokens(s[1..])
  }

  /** The encoded form `&quot;t&quot;` of one token. */
  function Quoted(t: string): string {
    Quot + t + Quot
  }

  function Concat(ss: seq<string>): string {
    if ss == [] then "" else ss[0] + Concat(ss[1..])
  }

  lemma AmpFreeLengthOf(t: string, rest: string)
    requires '&' !in t
    ensures AmpFreeLength(t + "&" + rest) == |t|
    decreases |t|
  {
    if t != [] {
      assert (t + "&" + rest)[1..] == t[1..] + "&" + rest;
      AmpFreeLengthOf(t[1..], rest);
    }
  }

  /** `&quot;` at the head of the input is recognised and skipped. */
  lemma QuotHead(rest: string)
    ensures StartsWith(Quot + rest, Quot) && (Quot + rest)[6..] == rest
  {
    PrefixStarts(Quot, rest);
  }

  /** One encoded token at the head of the input is read back, and the scan resumes behind it. */
  lemma QuotTokensStep(t: string, tail: string)
    requires t != "" && '&' !in t
    ensures QuotTokens(Quoted(t) + tail) == [t] + QuotTokens(tail)
  {
    var after := Quot + tail;
    var rest := t + after;
    assert Quoted(t) + tail == Quot + rest;
    QuotHead(rest);
    QuotHead(tail);
    assert after == "&" + ("quot;" + tail);
    assert rest == t + "&" + ("quot;" + tail);
    AmpFreeLengthOf(t, "quot;" + tail);
    assert rest[|t|..] == after;
    assert rest[..|t|] == t;
    assert rest[|t| + 6..] == after[6..];
  }

  /** The token scan reads back every non-empty, '&'-free token written as `&quot;t&quot;`. */
  lemma {:induction false} QuotTokensOfQuoted(ts: seq<string>)
    requires forall k :: 0 <= k < |ts| ==> ts[k] != "" && '&' !in ts[k]
    ensures QuotTokens(Concat(Map(ts))) == ts
  {
    if ts != [] {
      QuotTokensOfQuoted(ts[1..]);
      assert Map(ts) == [Quoted(ts[0])] + Map(ts[1..]);
      assert Concat(Map(ts)) == Quoted(ts[0]) + Concat(Map(ts[1..]));
      QuotTokensStep(ts[0], Concat(Map(ts[1..])));
    }
  }

  /**
   * Tokens written as `&quot;t&quot;` with filler around and between them: fillers[k] comes
   * before token k, and the last filler closes the value (`[`, `,` and `]` in a data-params
   * attribute).
   */
  function Encoded(ts: seq<string>, fillers: seq<string>): string
    requires |fillers| == |ts| + 1
  {
    if ts == [] then fillers[0] else fillers[0] + Quoted(ts[0]) + Encoded(ts[1..], fillers[1..])
  }

  /** Text that does not open with '&' does not open with `&quot;`. */
  lemma NoQuotHead(s: string)
    requires s != [] && s[0] != '&'
    ensures !StartsWith(s, Quot)
  {
    if |Quot| <= |s| {
      assert s[..|Quot|][0] == s[0];
    }
  }

  /** The scan steps over text without an '&'. */
  lemma {:induction false} QuotTokensSkip(f: string, tail: string)
    requires '&' !in f
    ensures QuotTokens(f + tail) == QuotTokens(tail)
    decreases |f|
  {
    if f != [] {
      var s := f + tail;
      assert s[0] == f[0] && s[1..] == f[1..] + tail;
      NoQuotHead(s);
      assert QuotTokens(s) == QuotTokens(s[1..]);
      QuotTokensSkip(f[1..], tail);
    } else {
      assert f + tail == tail;
    }
  }

  /**
   * The token scan reads back every non-empty, '&'-free token written as `&quot;t&quot;`,
   * whatever '&'-free filler stands around and between the tokens.
   */
  lemma {:induction false} QuotTokensOfEncoded(ts: seq<string>, fillers: seq<string>)
    requires |fillers| == |ts| + 1
    requires forall k :: 0 <= k < |ts| ==> ts[k] != "" && '&' !in ts[k]
    requires forall k :: 0 <= k < |fillers| ==> '&' !in fillers[k]
    ensures QuotTokens(Encoded(ts, fillers)) == ts
  {
    if ts == [] {
      QuotTokensSkip(fillers[0], "");
      assert fillers[0] + "" == fillers[0];
    } else {
      var tail := Encoded(ts[1..], fillers[1..]);
      QuotTokensOfEncoded(ts[1..], fillers[1..]);
      assert Encoded(ts, fillers) == fillers[0] + (Quoted(ts[0]) + tail);
      QuotTokensSkip(fillers[0], Quoted(ts[0]) + tail);
      QuotTokensStep(ts[0], tail);
      assert [ts[0]] + ts[1..] == ts;
    }
  }

  function Map(ts: seq<string>): (r: seq<string>)
    ensures |r| == |ts| && forall k :: 0 <= k < |ts| ==> r[k] == Quoted(ts[k])
  {
    if ts == [] then [] else [Quoted(ts[0])] + Map(ts[1..])
  }

  /** The noise filter `/null|false|true|@|js|id/`. */
  predicate IsNoise(t: string) {
    Contains(t, "null") || Contains(t, "false") || Contains(t, "true")
    || Contains(t, "@") || Contains(t, "js") || Contains(t, "id")
  }

  /** A scanned token the filter keeps: shorter than 100 characters and not noise. */
  predicate KeepsToken(t: string) {
    |t| < 100 && !IsNoise(t)
  }

  /** The tokens kept as options: shorter than 100 characters and not noise, in order. */
  function KeptTokens(ts: seq<string>): (r: seq<string>)
    ensures forall k :: 0 <= k < |r| ==> |r[k]| < 100 && !IsNoise(r[k]) && r[k] in ts
  {
    if ts == [] then []
    else
      var rest := KeptTokens(ts[1..]);
      if KeepsToken(ts[0]) then [ts[0]] + rest else rest
  }

  /** The positions from `i` on where `mask` holds. */
  function Positions(mask: seq<bool>, i: nat): seq<nat>
    decreases |mask| - i
  {
    if i >= |mask| then [] else (if mask[i] then [i] else []) + Positions(mask, i + 1)
  }

  /** The positions are all those from `i` on where the mask holds, in increasing order. */
  lemma {:induction false} PositionsSpec(mask: seq<bool>, i: nat)
    ensures forall k :: 0 <= k < |Positions(mask, i)| ==> i <= Positions(mask, i)[k] < |mask| && mask[Positions(mask, i)[k]]
    ensures forall k, l :: 0 <= k < l < |Positions(mask, i)| ==> Positions(mask, i)[k] < Positions(mask, i)[l]
    ensures forall j :: i <= j < |mask| && mask[j] ==> j in Positions(mask, i)
    decreases |mask| - i
  {
    if i < |mask| {
      var r, rest := Positions(mask, i), Positions(mask, i + 1);
      PositionsSpec(mask, i + 1);
      if mask[i] {
        assert r == [i] + rest;
        forall k, l | 0 <= k < l < |r| ensures r[k] < r[l] {
          assert r[l] == rest[l - 1];
        }
      } else {
        assert r == [] + rest;
      }
    }
  }

  /** Which scanned tokens the filter keeps. */
  function KeepMask(ts: seq<string>): (m: seq<bool>)
    ensures |m| == |ts| && forall k :: 0 <= k < |ts| ==> m[k] == KeepsToken(ts[k])
  {
    seq(|ts|, k requires 0 <= k < |ts| => KeepsToken(ts[k]))
  }

  /** The strings at the positions `pos`, in the order of `pos` ("" for a position past the end). */
  function Pick(ss: seq<string>, pos: seq<nat>): seq<string> {
    seq(|pos|, k requires 0 <= k < |pos| => if pos[k] < |ss| then ss[pos[k]] else "")
  }

  lemma PickCons(ss: seq<string>, i: nat, pos: seq<nat>)
    requires i < |ss|
    ensures Pick(ss, [i] + pos) == [ss[i]] + Pick(ss, pos)
  {
    var a, b := Pick(ss, [i] + pos), [ss[i]] + Pick(ss, pos);
    forall k | 0 <= k < |a| ensures a[k] == b[k] {
      if k > 0 {
        assert ([i] + pos)[k] == pos[k - 1];
      }
    }
  }

  /** Every string at a position where the mask holds is among those the mask picks. */
  lemma PickMembers(ss: seq<string>, mask: seq<bool>)
    requires |mask| == |ss|
    ensures forall j :: 0 <= j < |ss| && mask[j] ==> ss[j] in Pick(ss, Positions(mask, 0))
  {
    var pos := Positions(mask, 0);
    PositionsSpec(mask, 0);
    forall j | 0 <= j < |ss| && mask[j] ensures ss[j] in Pick(ss, pos) {
      var k :| 0 <= k < |pos| && pos[k] == j;
      assert Pick(ss, pos)[k] == ss[j];
    }
  }

  lemma {:induction false} KeptTokensFrom(ts: seq<string>, i: nat)
    requires i <= |ts|
    ensures KeptTokens(ts[i..]) == Pick(ts, Positions(KeepMask(ts), i))
    decreases |ts| - i
  {
    if i < |ts| {
      var pos := Positions(KeepMask(ts), i + 1);
      KeptTokensFrom(ts, i + 1);
      assert ts[i..][0] == ts[i] && ts[i..][1..] == ts[i + 1..];
      if KeepsToken(ts[i]) {
        PickCons(ts, i, pos);
      } else {
        assert [] + pos == pos;
      }
    }
  }

  /**
   * The filter keeps every token that passes it and nothing else, in scan order: the kept tokens
   * are the tokens at the passing positions.
   */
  lemma KeptTokensSpec(ts: seq<string>)
    ensures var pos := Positions(KeepMask(ts), 0);
      && KeptTokens(ts) == Pick(ts, pos)
      && (forall k :: 0 <= k < |pos| ==> pos[k] < |ts| && KeepsToken(ts[pos[k]]))
      && (forall k, l :: 0 <= k < l < |pos| ==> pos[k] < pos[l])
      && (forall j :: 0 <= j < |ts| && KeepsToken(ts[j]) ==> j in pos)
    ensures forall t :: t in ts && KeepsToken(t) ==> t in KeptTokens(ts)
  {
    var mask := KeepMask(ts);
    PositionsSpec(mask, 0);
    KeptTokensFrom(ts, 0);
    assert ts[0..] == ts;
    PickMembers(ts, mask);
  }

  /** The option candidates of a data-params attribute value. */
  function DataParamsOptions(raw: string): (r: seq<string>)
    ensures forall k :: 0 <= k < |r| ==> r[k] != "" && '&' !in r[k] && |r[k]| < 100 && !IsNoise(r[k])
  {
    KeptTokens(QuotTokens(raw))
  }

  /**
   * A data-params value holding quoted tokens among '&'-free filler gives exactly the tokens
   * that pass the filter, in order.
   */
  lemma DataParamsOfEncoded(ts: seq<string>, fillers: seq<string>)
    requires |fillers| == |ts| + 1
    requires forall k :: 0 <= k < |ts| ==> ts[k] != "" && '&' !in ts[k]
    requires forall k :: 0 <= k < |fillers| ==> '&' !in fillers[k]
    ensures DataParamsOptions(Encoded(ts, fillers)) == KeptTokens(ts)
  {
    QuotTokensOfEncoded(ts, fillers);
  }

  // ---------------------------------------------------------------------------
  // The classification cascade
  // ---------------------------------------------------------------------------

  /** A classification: the type and the options field. */
  datatype Shape = Shape(qtype: QType, options: Option<seq<string>>)

  const GridSel: seq<Sel> := [Role("grid"), Role("table"), Class("freebirdFormviewerViewItemsGridRoot")]
  const ColumnSel: seq<Sel> := [Role("columnheader"), Class("freebirdFormviewerViewItemsGridColumnHeader")]
  const ListboxSel: seq<Sel> := [Role("listbox"), Role("list")]
  const ListOptionSel: seq<Sel> := [Role("option"), Role("listitem"), Tag("option")]
  const RadioGroupSel: seq<Sel> := [Role("radiogroup")]
  const RadioOptionSel: seq<Sel> := [Role("radio"), Role("option")]
  const GroupSel: seq<Sel> := [Role("group"), Class("quantumWizTogglePapercheckbox")]
  const CheckOptionSel: seq<Sel> :=
    [Role("checkbox"), Both(Tag("input"), AttrIs("type", "checkbox")), HasAttr("data-value"), Tag("label")]
  const InputSel: seq<Sel> :=
    [Both(Tag("input"), AttrIs("type", "text")), Both(Tag("input"), AttrIs("type", "email")),
     Both(Tag("input"), AttrIs("type", "number"))]
  const DataParamsSel: seq<Sel> := [Both(Both(Tag("div"), AttrIs("jsmodel", "CP1olw")), HasAttr("data-params"))]
  const GenericSel: seq<Sel> := [Role("option"), Role("checkbox"), Role("radio"), Tag("option"), Tag("label")]

  /** The most option nodes the generic fallback looks at. */
  const GenericScanLimit: nat := 50

  /** A role branch: the group found by `groupSel`, its option nodes by `optionSel`, their labels. */
  function RoleProbe(page: Page, c: Container, groupSel: seq<Sel>, optionSel: seq<Sel>, t: QType): Option<Shape> {
    match Query(c, 0, groupSel)
    case None => None
    case Some(g) =>
      var labels := CollectLabels(page, c, QueryAll(c, g, optionSel));
      if labels != [] then Some(Shape(t, Some(labels))) else None
  }

  /** The grid branch: column headers are looked up in the whole container. */
  function GridProbe(page: Page, c: Container): Option<Shape> {
    if Query(c, 0, GridSel).Some? then
      var cols := CollectLabels(page, c, QueryAll(c, 0, ColumnSel));
      if cols != [] then Some(Shape(Grid, Some(cols))) else None
    else None
  }

  /** The trimmed text of an option node. */
  function OptionText(c: Container, n: nat): string {
    if n < |c| then Trim(c[n].text) else ""
  }

  /** The trimmed non-empty texts of `nodes`, in order (no deduplication). */
  function OptionTexts(c: Container, nodes: seq<nat>): (r: seq<string>)
    ensures forall k :: 0 <= k < |r| ==> r[k] != ""
  {
    if nodes == [] then []
    else
      var rest := OptionTexts(c, nodes[1..]);
      var t := OptionText(c, nodes[0]);
      if t != "" then [t] + rest else rest
  }

  /** The trimmed text of every option node, in node order. */
  function NodeTexts(c: Container, nodes: seq<nat>): (r: seq<string>)
    ensures |r| == |nodes| && forall k :: 0 <= k < |nodes| ==> r[k] == OptionText(c, nodes[k])
  {
    seq(|nodes|, k requires 0 <= k < |nodes| => OptionText(c, nodes[k]))
  }

  /** Which option texts are not empty. */
  function FilledMask(texts: seq<string>): (m: seq<bool>)
    ensures |m| == |texts| && forall k :: 0 <= k < |texts| ==> m[k] == (texts[k] != "")
  {
    seq(|texts|, k requires 0 <= k < |texts| => texts[k] != "")
  }

  lemma {:induction false} OptionTextsFrom(c: Container, nodes: seq<nat>, i: nat)
    requires i <= |nodes|
    ensures OptionTexts(c, nodes[i..]) == Pick(NodeTexts(c, nodes), Positions(FilledMask(NodeTexts(c, nodes)), i))
    decreases |nodes| - i
  {
    if i < |nodes| {
      var texts := NodeTexts(c, nodes);
      var rest := OptionTexts(c, nodes[i + 1..]);
      var pos := Positions(FilledMask(texts), i + 1);
      OptionTextsFrom(c, nodes, i + 1);
      assert nodes[i..][0] == nodes[i] && nodes[i..][1..] == nodes[i + 1..];
      assert OptionTexts(c, nodes[i..]) == if texts[i] != "" then [texts[i]] + rest else rest;
      if texts[i] != "" {
        PickCons(texts, i, pos);
      } else {
        assert [] + pos == pos;
      }
    }
  }

  /**
   * The dropdown options are the trimmed texts of the option nodes, in node order, with exactly
   * the empty ones dropped: they are the texts at the positions of the non-empty ones.
   */
  lemma OptionTextsSpec(c: Container, nodes: seq<nat>)
    ensures var texts := NodeTexts(c, nodes); var pos := Positions(FilledMask(texts), 0);
      && OptionTexts(c, nodes) == Pick(texts, pos)
      && (forall k :: 0 <= k < |pos| ==> pos[k] < |texts| && texts[pos[k]] != "")
      && (forall k, l :: 0 <= k < l < |pos| ==> pos[k] < pos[l])
      && (forall j :: 0 <= j < |texts| && texts[j] != "" ==> j in pos)
    ensures forall n :: n in nodes && OptionText(c, n) != "" ==> OptionText(c, n) in OptionTexts(c, nodes)
  {
    var texts := NodeTexts(c, nodes);
    var mask := FilledMask(texts);
    PositionsSpec(mask, 0);
    OptionTextsFrom(c, nodes, 0);
    assert nodes[0..] == nodes;
    PickMembers(texts, mask);
    forall n | n in nodes && OptionText(c, n) != "" ensures OptionText(c, n) in OptionTexts(c, nodes) {
      var j :| 0 <= j < |nodes| && nodes[j] == n;
      assert texts[j] == OptionText(c, n) && mask[j];
    }
  }

  function SelectProbe(c: Container): Option<Shape> {
    match Query(c, 0, [Tag("select")])
    case None => None
    case Some(s) =>
      var opts := OptionTexts(c, QueryAll(c, s, [Tag("option")]));
      if opts != [] then Some(Shape(Dropdown, Some(opts))) else None
  }

  /** A textarea makes a paragraph question, else a text, email or number input a short answer. */
  function TextProbe(c: Container): Option<Shape> {
    if Query(c, 0, [Tag("textarea")]).Some? then Some(Shape(Paragraph, None))
    else if Query(c, 0, InputSel).Some? then Some(Shape(ShortAnswer, None))
    else None
  }

  function DataParamsProbe(c: Container): Option<Shape> {
    match Query(c, 0, DataParamsSel)
    case None => None
    case Some(d) =>
      var m := DataParamsOptions(Attr(c[d], "data-params"));
      if |m| > 1 then Some(Shape(Mcq, Some(m))) else None
  }

  function Take(s: seq<nat>, n: nat): seq<nat> {
    if |s| <= n then s else s[..n]
  }

  function FallbackProbe(page: Page, c: Container): Option<Shape> {
    var generic := QueryAll(c, 0, GenericSel);
    var labels := CollectLabels(page, c, Take(generic, GenericScanLimit));
    if labels != [] then
      Some(Shape(if Query(c, 0, [Role("radio")]).Some? then Mcq else Checkboxes, Some(labels)))
    else None
  }

  /**
   * The cascade: the probes in the order the parser tries them, the first that succeeds
   * deciding; `unknown` with no options when none does.
   */
  function Classify(page: Page, c: Container): Shape {
    var grid := GridProbe(page, c);
    if grid.Some? then grid.value else
    var listbox := RoleProbe(page, c, ListboxSel, ListOptionSel, Listbox);
    if listbox.Some? then listbox.value else
    var radio := RoleProbe(page, c, RadioGroupSel, RadioOptionSel, Mcq);
    if radio.Some? then radio.value else
    var checkbox := RoleProbe(page, c, GroupSel, CheckOptionSel, Checkboxes);
    if checkbox.Some? then checkbox.value else
    var select := SelectProbe(c);
    if select.Some? then select.value else
    var text := TextProbe(c);
    if text.Some? then text.value else
    var dataParams := DataParamsProbe(c);
    if dataParams.Some? then dataParams.value else
    var fallback := FallbackProbe(page, c);
    if fallback.Some? then fallback.value else
    Shape(Unknown, Some([]))
  }

  /** The question parseForm records for the container at `idx`. */
  function ParseQuestion(page: Page, idx: nat): Question
    requires idx < |page.containers|
  {
    var c := page.containers[idx];
    var text := QuestionText(c);
    var shape := Classify(page, c);
    Question(QuestionId(idx), shape.qtype, if text != "" then text else QuestionId(idx), shape.options)
  }

  /** The grid branch of parseForm's forEach. */
  method GridBranch(page: Page, el: Container) returns (r: Option<Shape>)
    ensures r == GridProbe(page, el)
  {
    if Query(el, 0, GridSel).Some? {
      var cols := CollectLabelsFromNodes(page, el, QueryAll(el, 0, ColumnSel));
      if cols != [] {
        return Some(Shape(Grid, Some(cols)));
      }
    }
    return None;
  }

  /** The listbox, radio-group and checkbox-group branches of parseForm's forEach. */
  method RoleBranch(page: Page, el: Container, groupSel: seq<Sel>, optionSel: seq<Sel>, t: QType) returns (r: Option<Shape>)
    ensures r == RoleProbe(page, el, groupSel, optionSel, t)
  {
    var group := Query(el, 0, groupSel);
    if group.Some? {
      var labels := CollectLabelsFromNodes(page, el, QueryAll(el, group.value, optionSel));
      if labels != [] {
        return Some(Shape(t, Some(labels)));
      }
    }
    return None;
  }

  /** The dropdown branch of parseForm's forEach. */
  method SelectBranch(el: Container) returns (r: Option<Shape>)
    ensures r == SelectProbe(el)
  {
    var sel := Query(el, 0, [Tag("select")]);
    if sel.Some? {
      var opts := OptionTexts(el, QueryAll(el, sel.value, [Tag("option")]));
      if opts != [] {
        return Some(Shape(Dropdown, Some(opts)));
      }
    }
    return None;
  }

  /** The short-answer and paragraph branch of parseForm's forEach. */
  method TextBranch(el: Container) returns (r: Option<Shape>)
    ensures r == TextProbe(el)
  {
    var input := Query(el, 0, InputSel);
    var textarea := Query(el, 0, [Tag("textarea")]);
    if textarea.Some? {
      return Some(Shape(Paragraph, None));
    }
    if input.Some? {
      return Some(Shape(ShortAnswer, None));
    }
    return None;
  }

  /** The hidden data-params branch of parseForm's forEach. */
  method DataParamsBranch(el: Container) returns (r: Option<Shape>)
    ensures r == DataParamsProbe(el)
  {
    var dp := Query(el, 0, DataParamsSel);
    if dp.Some? {
      var matches := DataParamsOptions(Attr(el[dp.value], "data-params"));
      if |matches| > 1 {
        return Some(Shape(Mcq, Some(matches)));
      }
    }
    return None;
  }

  /** The generic fallback branch of parseForm's forEach. */
  method FallbackBranch(page: Page, el: Container) returns (r: Option<Shape>)
    ensures r == FallbackProbe(page, el)
  {
    var genericOpts := QueryAll(el, 0, GenericSel);
    var anyLabels := CollectLabelsFromNodes(page, el, Take(genericOpts, GenericScanLimit));
    if anyLabels != [] {
      var typ := if Query(el, 0, [Role("radio")]).Some? then Mcq else Checkboxes;
      return Some(Shape(typ, Some(anyLabels)));
    }
    return None;
  }

  /** The body of parseForm's forEach: the branches in order, the first that succeeds returning. */
  method ParseContainer(page: Page, idx: nat) returns (q: Question)
    requires idx < |page.containers|
    ensures q == ParseQuestion(page, idx)
  {
    var el := page.containers[idx];
    var id := QuestionId(idx);
    var found := FindQuestionText(el);
    var qText := if found != "" then found else id;
    var shape := GridBranch(page, el);
    if shape.None? {
      shape := RoleBranch(page, el, ListboxSel, ListOptionSel, Listbox);
    }
    if shape.None? {
      shape := RoleBranch(page, el, RadioGroupSel, RadioOptionSel, Mcq);
    }
    if shape.None? {
      shape := RoleBranch(page, el, GroupSel, CheckOptionSel, Checkboxes);
    }
    if shape.None? {
      shape := SelectBranch(el);
    }
    if shape.None? {
      shape := TextBranch(el);
    }
    if shape.None? {
      shape := DataParamsBranch(el);
    }
    if shape.None? {
      shape := FallbackBranch(page, el);
    }
    var s := if shape.Some? then shape.value else Shape(Unknown, Some([]));
    return Question(id, s.qtype, qText, s.options);
  }

  /** `[f(0), ..., f(n - 1)]`. */
  function Tabulate<T>(f: nat --> T, n: nat): (r: seq<T>)
    requires forall i :: 0 <= i < n ==> f.requires(i)
    ensures |r| == n
  {
    if n == 0 then [] else Tabulate(f, n - 1) + [f(n - 1)]
  }

  lemma {:induction false} TabulateAt<T>(f: nat --> T, n: nat, i: nat)
    requires forall i :: 0 <= i < n ==> f.requires(i)
    requires i < n
    ensures Tabulate(f, n)[i] == f(i)
  {
    if i < n - 1 {
      TabulateAt(f, n - 1, i);
    }
  }

  /** The questions parseForm records for the first `n` containers. */
  function ParseQuestions(page: Page, n: nat): (r: seq<Question>)
    requires n <= |page.containers|
    ensures |r| == n
  {
    Tabulate((i: nat) requires i < |page.containers| => ParseQuestion(page, i), n)
  }

  /** parseForm: one question per container, in container order. */
  method ParseForm(page: Page) returns (questions: seq<Question>)
    ensures questions == ParseQuestions(page, |page.containers|)
  {
    questions := [];
    for idx := 0 to |page.containers|
      invariant questions == ParseQuestions(page, idx)
    {
      var q := ParseContainer(page, idx);
      questions := questions + [q];
    }
  }

  // ---------------------------------------------------------------------------
  // What parseForm promises about its records
  // ---------------------------------------------------------------------------

  /** Every text in VisibleTexts is trimmed. */
  lemma {:induction false} VisibleTextsTrimmed(c: Container, nodes: seq<nat>)
    ensures forall k :: 0 <= k < |VisibleTexts(c, nodes)| ==> IsTrimmed(VisibleTexts(c, nodes)[k])
  {
    if nodes != [] {
      VisibleTextsTrimmed(c, nodes[..|nodes| - 1]);
    }
  }

  /** findQuestionText always gives a trimmed text. */
  lemma QuestionTextTrimmed(c: Container)
    ensures IsTrimmed(QuestionText(c))
  {
    var ts := VisibleTexts(c, QueryAll(c, 0, [Any]));
    VisibleTextsTrimmed(c, QueryAll(c, 0, [Any]));
    LongestIsEarliestLongest(ts);
  }

  /**
   * The options field agrees with the type: it is left out exactly for text and paragraph
   * questions, it is empty for unknown ones, and every other type carries at least one option,
   * none of them empty.
   */
  predicate WellShaped(s: Shape) {
    && (s.options.None? <==> s.qtype == ShortAnswer || s.qtype == Paragraph)
    && (s.qtype == Unknown ==> s.options == Some([]))
    && (s.options.Some? && s.qtype != Unknown ==>
          |s.options.value| > 0 && forall k :: 0 <= k < |s.options.value| ==> s.options.value[k] != "")
  }

  /** The labels collectLabelsFromNodes gives are non-empty and distinct. */
  lemma CollectLabelsClean(page: Page, c: Container, nodes: seq<nat>)
    ensures forall k :: 0 <= k < |CollectLabels(page, c, nodes)| ==> CollectLabels(page, c, nodes)[k] != ""
    ensures NoDup(CollectLabels(page, c, nodes))
  {
    DedupeSpec(NodeLabels(page, c, nodes));
  }

  /** A shape with options, all of them non-empty and distinct. */
  predicate CleanOptions(s: Shape) {
    s.options.Some? && |s.options.value| > 0 && NoDup(s.options.value)
    && forall k :: 0 <= k < |s.options.value| ==> s.options.value[k] != ""
  }

  lemma GridProbeClean(page: Page, c: Container)
    ensures GridProbe(page, c).Some? ==> GridProbe(page, c).value.qtype == Grid && CleanOptions(GridProbe(page, c).value)
  {
    CollectLabelsClean(page, c, QueryAll(c, 0, ColumnSel));
  }

  lemma RoleProbeClean(page: Page, c: Container, groupSel: seq<Sel>, optionSel: seq<Sel>, t: QType)
    ensures RoleProbe(page, c, groupSel, optionSel, t).Some? ==>
      RoleProbe(page, c, groupSel, optionSel, t).value.qtype == t && CleanOptions(RoleProbe(page, c, groupSel, optionSel, t).value)
  {
    var g := Query(c, 0, groupSel);
    if g.Some? {
      CollectLabelsClean(page, c, QueryAll(c, g.value, optionSel));
    }
  }

  lemma FallbackProbeClean(page: Page, c: Container)
    ensures FallbackProbe(page, c).Some? ==>
      FallbackProbe(page, c).value.qtype in {Mcq, Checkboxes} && CleanOptions(FallbackProbe(page, c).value)
  {
    CollectLabelsClean(page, c, Take(QueryAll(c, 0, GenericSel), GenericScanLimit));
  }

  /**
   * Every classification is well shaped, and the options of grid, listbox and checkbox
   * questions, which come from collectLabelsFromNodes, have no duplicates.
   */
  lemma ClassifyWellShaped(page: Page, c: Container)
    ensures WellShaped(Classify(page, c))
    ensures Classify(page, c).qtype in {Grid, Listbox, Checkboxes} ==> NoDup(Classify(page, c).options.value)
  {
    var s := Classify(page, c);
    if GridProbe(page, c).Some? {
      GridProbeClean(page, c);
    } else if RoleProbe(page, c, ListboxSel, ListOptionSel, Listbox).Some? {
      RoleProbeClean(page, c, ListboxSel, ListOptionSel, Listbox);
    } else if RoleProbe(page, c, RadioGroupSel, RadioOptionSel, Mcq).Some? {
      RoleProbeClean(page, c, RadioGroupSel, RadioOptionSel, Mcq);
    } else if RoleProbe(page, c, GroupSel, CheckOptionSel, Checkboxes).Some? {
      RoleProbeClean(page, c, GroupSel, CheckOptionSel, Checkboxes);
    } else if SelectProbe(c).Some? || TextProbe(c).Some? || DataParamsProbe(c).Some? {
      assert s.qtype in {Dropdown, Paragraph, ShortAnswer, Mcq};
    } else {
      FallbackProbeClean(page, c);
    }
  }

  /** A data-params question is only recorded when the scan finds at least two options. */
  lemma DataParamsAtLeastTwo(c: Container)
    ensures DataParamsProbe(c).Some? ==> |DataParamsProbe(c).value.options.value| >= 2
  {
  }

  /** A container with nothing inside it is recorded as `unknown` with no options. */
  lemma EmptyContainerIsUnknown(page: Page, c: Container)
    requires |c| == 1
    ensures Classify(page, c) == Shape(Unknown, Some([]))
  {
    forall sels: seq<Sel>, a: nat | true
      ensures QueryAll(c, a, sels) == []
    {
      assert QueryUpTo(c, a, sels, 0) == [];
      assert !IsAncestor(c, a, 0);
    }
  }

  /**
   * Each record carries the id of its position, a non-empty question text (the id when no
   * text is found) and a well-shaped type and options.
   */
  lemma ParseQuestionSpec(page: Page, idx: nat)
    requires idx < |page.containers|
    ensures ParseQuestion(page, idx).id == QuestionId(idx)
    ensures ParseQuestion(page, idx).questionText != ""
    ensures IsTrimmed(ParseQuestion(page, idx).questionText) || ParseQuestion(page, idx).questionText == QuestionId(idx)
    ensures WellShaped(Shape(ParseQuestion(page, idx).qtype, ParseQuestion(page, idx).options))
  {
    QuestionTextTrimmed(page.containers[idx]);
    ClassifyWellShaped(page, page.containers[idx]);
  }

  /** parseForm records one question per container, the i-th for the i-th container. */
  lemma ParseQuestionsAt(page: Page, n: nat, i: nat)
    requires i < n <= |page.containers|
    ensures ParseQuestions(page, n)[i] == ParseQuestion(page, i)
  {
    TabulateAt((i: nat) requires i < |page.containers| => ParseQuestion(page, i), n, i);
  }
}
