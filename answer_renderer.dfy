/**
 * What displaySingleAnswer puts on the page for one answer: small "." indicators next to the
 * options an answer names, and answer text blocks. The page itself is never edited; what the
 * content script injects is kept as a list of Injected nodes beside it, each anchored at an
 * element of one question container.
 */
module AnswerRenderer {
  import opened Wrappers
  import opened Strings
  import opened Dom
  import opened FormParser

  /** An answer message: the question id, the type when the answer carries one, the text. */
  datatype Answer = Answer(questionId: string, qtype: Option<QType>, answer: string)

  // ---------------------------------------------------------------------------
  // Finding the question container
  // ---------------------------------------------------------------------------

  /** `parseInt(questionId.split('-')[1])`, with None for NaN (also when there is no '-'). */
  function QuestionIndex(id: string): Option<int> {
    var pieces := Split(id, {'-'});
    if |pieces| < 2 then None else ParseLeadingInt(pieces[1])
  }

  /** The index parseForm writes into an id is the index displaySingleAnswer reads back. */
  lemma QuestionIndexOfId(idx: nat)
    ensures QuestionIndex(QuestionId(idx)) == Some(idx)
  {
    var parts := ["question", NatToString(idx)];
    assert Join(parts, "-") == QuestionId(idx);
    NatToStringAvoids(idx, {'-'});
    assert Avoids("question", {'-'});
    SplitJoin(parts, '-', {'-'});
    ParseNatToString(idx);
  }

  /** Distinct containers get distinct ids. */
  lemma QuestionIdInjective(i: nat, j: nat)
    ensures QuestionId(i) == QuestionId(j) <==> i == j
  {
    QuestionIndexOfId(i);
    QuestionIndexOfId(j);
  }

  /** `questionEls[index]`: the container an answer id points at, when there is one. */
  function Target(page: Page, id: string): (r: Option<nat>)
    ensures r.Some? ==> r.value < |page.containers|
  {
    match QuestionIndex(id)
    case Some(i) => if 0 <= i < |page.containers| then Some(i as nat) else None
    case None => None
  }

  /** An answer for `question-<i>` lands on the i-th container, and on no other. */
  lemma TargetOfId(page: Page, idx: nat)
    ensures Target(page, QuestionId(idx)) == if idx < |page.containers| then Some(idx) else None
  {
    QuestionIndexOfId(idx);
  }

  /** An empty answer or one mentioning ERROR is only logged, never shown. */
  predicate IsFailure(answer: string) {
    |answer| == 0 || Contains(answer, "ERROR")
  }

  // ---------------------------------------------------------------------------
  // answersList
  // ---------------------------------------------------------------------------

  /**
   * The separators of `/\r?\n|;|,/`. A carriage return before a line feed is left on the
   * piece in front of it, where the following trim removes it.
   */
  const AnswerSeps: set<char> := {'\n', ';', ','}

  /** `.map(s => s.trim()).filter(Boolean).map(s => s.toLowerCase())`. */
  function CleanTokens(pieces: seq<string>): seq<string> {
    if pieces == [] then []
    else
      var t := Trim(pieces[0]);
      (if |t| != 0 then [Lower(t)] else []) + CleanTokens(pieces[1..])
  }

  /** The answer tokens the options are matched against. */
  function AnswerTokens(answer: string): seq<string> {
    CleanTokens(Split(answer, AnswerSeps))
  }

  /** A token as answersList holds it: non-empty, trimmed, lower-case, free of separators. */
  predicate CleanToken(t: string) {
    |t| != 0 && IsTrimmed(t) && IsLower(t) && Avoids(t, AnswerSeps)
  }

  lemma SepsNotLetters()
    ensures forall ch :: ch in AnswerSeps ==> !('a' <= ch <= 'z')
  {
  }

  /** One trimmed, lower-cased piece that is not empty is a clean token. */
  lemma PieceClean(p: string)
    requires Avoids(p, AnswerSeps) && |Trim(p)| != 0
    ensures CleanToken(Lower(Trim(p)))
  {
    TrimAvoids(p, AnswerSeps);
    LowerKeepsTrimmed(Trim(p));
    SepsNotLetters();
    LowerAvoids(Trim(p), AnswerSeps);
  }

  lemma CleanTokensSingle(p: string)
    ensures CleanTokens([p]) == if |Trim(p)| != 0 then [Lower(Trim(p))] else []
  {
    assert [p][1..] == [];
  }

  predicate AllClean(ts: seq<string>) {
    forall k :: 0 <= k < |ts| ==> CleanToken(ts[k])
  }

  lemma AllCleanConcat(h: seq<string>, r: seq<string>)
    requires AllClean(h) && AllClean(r)
    ensures AllClean(h + r)
  {
    forall k | 0 <= k < |h + r| ensures CleanToken((h + r)[k]) {
      if k < |h| {
        assert (h + r)[k] == h[k];
      } else {
        assert (h + r)[k] == r[k - |h|];
      }
    }
  }

  lemma {:induction false} CleanTokensClean(pieces: seq<string>)
    requires forall k :: 0 <= k < |pieces| ==> Avoids(pieces[k], AnswerSeps)
    ensures AllClean(CleanTokens(pieces))
  {
    if pieces != [] {
      CleanTokensClean(pieces[1..]);
      CleanTokensCons(pieces[0], pieces[1..]);
      assert [pieces[0]] + pieces[1..] == pieces;
      CleanTokensSingle(pieces[0]);
      if |Trim(pieces[0])| != 0 {
        PieceClean(pieces[0]);
      }
      AllCleanConcat(CleanTokens([pieces[0]]), CleanTokens(pieces[1..]));
    }
  }

  /** Every token of answersList is non-empty, trimmed, lower-case and free of separators. */
  lemma AnswerTokensClean(answer: string)
    ensures forall k :: 0 <= k < |AnswerTokens(answer)| ==> CleanToken(AnswerTokens(answer)[k])
  {
    var pieces := Split(answer, AnswerSeps);
    forall k | 0 <= k < |pieces| ensures Avoids(pieces[k], AnswerSeps) {
      assert forall ch :: ch in pieces[k] ==> ch !in AnswerSeps;
    }
    CleanTokensClean(pieces);
  }

  /** A clean token survives trimming, filtering and lower-casing unchanged. */
  lemma CleanTokenKept(t: string)
    requires CleanToken(t)
    ensures CleanTokens([t]) == [t]
  {
    TrimOfTrimmed(t);
    CleanTokensSingle(t);
  }

  lemma CleanTokensCons(t: string, rest: seq<string>)
    ensures CleanTokens([t] + rest) == CleanTokens([t]) + CleanTokens(rest)
  {
    assert ([t] + rest)[1..] == rest;
    assert [t][1..] == [];
  }

  lemma {:induction false} CleanTokensOfClean(ts: seq<string>)
    requires AllClean(ts)
    ensures CleanTokens(ts) == ts
  {
    if ts != [] {
      CleanTokensOfClean(ts[1..]);
      CleanTokenKept(ts[0]);
      CleanTokensCons(ts[0], ts[1..]);
      assert [ts[0]] + ts[1..] == ts;
    }
  }

  /** Tokens written one per line are read back as they are. */
  lemma AnswerTokensOfLines(ts: seq<string>)
    requires AllClean(ts)
    ensures AnswerTokens(Join(ts, "\n")) == ts
  {
    if ts == [] {
      assert Split("", AnswerSeps) == [""];
      CleanTokensSingle("");
    } else {
      assert '\n' in AnswerSeps;
      assert forall k :: 0 <= k < |ts| ==> Avoids(ts[k], AnswerSeps);
      SplitJoin(ts, '\n', AnswerSeps);
      CleanTokensOfClean(ts);
    }
  }

  /**
   * Tokens separated by any mix of line feeds, semicolons and commas are read back as they are:
   * the k-th gap may be any of the three.
   */
  lemma AnswerTokensOfSeparated(ts: seq<string>, gaps: seq<char>)
    requires AllClean(ts) && |ts| == |gaps| + 1
    requires forall k :: 0 <= k < |gaps| ==> gaps[k] in AnswerSeps
    ensures AnswerTokens(Interleave(ts, gaps)) == ts
  {
    assert forall k :: 0 <= k < |ts| ==> Avoids(ts[k], AnswerSeps);
    SplitInterleave(ts, gaps, AnswerSeps);
    CleanTokensOfClean(ts);
  }

  /** An option matches when its label equals, contains or is contained in some token. */
  predicate LabelMatches(lab: string, tokens: seq<string>) {
    exists k :: 0 <= k < |tokens| && (lab == tokens[k] || Contains(lab, tokens[k]) || Contains(tokens[k], lab))
  }

  /** An option with an empty label matches exactly when there is any token at all. */
  lemma EmptyLabelMatches(tokens: seq<string>)
    ensures LabelMatches("", tokens) <==> tokens != []
  {
    if tokens != [] {
      assert StartsWith(tokens[0], "");
    }
  }

  // ---------------------------------------------------------------------------
  // Option labels and findVisualLabel
  // ---------------------------------------------------------------------------

  /** labelText of the choice branch: the first non-empty of the trimmed aria-label, data-value and text, lower-cased. */
  function ChoiceLabel(e: Elem): string {
    var aria := Trim(Attr(e, "aria-label"));
    var value := Trim(Attr(e, "data-value"));
    var text := Trim(e.text);
    Lower(if |aria| != 0 then aria else if |value| != 0 then value else text)
  }

  /** labLower of the list branch: the raw aria-label, else data-value, else the text, then trimmed and lower-cased. */
  function ListLabel(e: Elem): string {
    var aria := Attr(e, "aria-label");
    var value := Attr(e, "data-value");
    Lower(Trim(if |aria| != 0 then aria else if |value| != 0 then value else e.text))
  }

  /**
   * An aria-label of white space only is skipped by the choice branch, which falls through to
   * the data-value or the text, but wins untrimmed in the list branch's cascade and leaves an
   * empty label there.
   */
  lemma BlankAriaLabel(e: Elem)
    requires |Attr(e, "aria-label")| > 0 && |Trim(Attr(e, "aria-label"))| == 0
    ensures ChoiceLabel(e) == Lower(if |Trim(Attr(e, "data-value"))| != 0 then Trim(Attr(e, "data-value")) else Trim(e.text))
    ensures |ListLabel(e)| == 0
  {
  }

  /** The text findVisualLabel reads from a candidate: its raw aria-label, else its trimmed text. */
  function CandidateText(e: Elem): string {
    var aria := Attr(e, "aria-label");
    if |aria| != 0 then aria else Trim(e.text)
  }

  /** A candidate names `labelText` when its trimmed, lower-cased text equals or contains it. */
  predicate Names(e: Elem, labelText: string) {
    var t := CandidateText(e);
    |t| != 0 && |labelText| != 0 && (Lower(Trim(t)) == labelText || Contains(Lower(Trim(t)), labelText))
  }

  /** The first of `nodes`, other than `skip`, that names `labelText`. */
  function FirstNaming(c: Container, nodes: seq<nat>, labelText: string, skip: Option<nat>): (r: Option<nat>)
    ensures r.Some? ==> r.value in nodes && r.value < |c| && Names(c[r.value], labelText) && skip != Some(r.value)
  {
    if nodes == [] then None
    else if nodes[0] < |c| && skip != Some(nodes[0]) && Names(c[nodes[0]], labelText) then Some(nodes[0])
    else FirstNaming(c, nodes[1..], labelText, skip)
  }

  /** The last step of findVisualLabel: a span, label or div under the parent with some text. */
  predicate HasLabelText(e: Elem) {
    |e.text| != 0 || |Attr(e, "aria-label")| != 0
  }

  /**
   * findVisualLabel: a span, div or label inside the option naming the label, else a sibling
   * naming it, else the first span, label or div under the parent when it has text, else the
   * option itself.
   */
  function VisualLabel(c: Container, opt: nat, labelText: string): (r: nat)
    requires opt < |c|
    ensures r < |c|
  {
    match FirstNaming(c, QueryAll(c, opt, LabelSel), labelText, None)
    case Some(v) => v
    case None =>
      match Parent(c, opt)
      case None => opt
      case Some(p) =>
        match FirstNaming(c, Children(c, p), labelText, Some(opt))
        case Some(v) => v
        case None =>
          match Query(c, p, LabelSel)
          case Some(s) => if HasLabelText(c[s]) then s else opt
          case None => opt
  }

  /**
   * The indicator goes on the option itself, on an element inside it or beside it that names
   * the label, or on the first labelled span, label or div under the option's parent.
   */
  lemma VisualLabelSpec(c: Container, opt: nat, labelText: string)
    requires opt < |c|
    ensures var v := VisualLabel(c, opt, labelText);
      || v == opt
      || (IsAncestor(c, opt, v) && Names(c[v], labelText))
      || (v != opt && Parent(c, v).Some? && Parent(c, v) == Parent(c, opt) && Names(c[v], labelText))
      || (Parent(c, opt).Some? && IsAncestor(c, Parent(c, opt).value, v) && HasLabelText(c[v]))
    ensures |labelText| == 0 ==>
      var v := VisualLabel(c, opt, labelText);
      v == opt || (Parent(c, opt).Some? && IsAncestor(c, Parent(c, opt).value, v) && HasLabelText(c[v]))
  {
    QueryAllSpec(c, opt, LabelSel);
    var inside := FirstNaming(c, QueryAll(c, opt, LabelSel), labelText, None);
    if inside.None? && Parent(c, opt).Some? {
      var p := Parent(c, opt).value;
      QuerySpec(c, p, LabelSel);
    }
  }

  // ---------------------------------------------------------------------------
  // Injected nodes
  // ---------------------------------------------------------------------------

  datatype Kind = Indicator | AnswerDiv

  /**
   * A node the content script appended: the container it is in, the element it was appended
   * to, its kind, its text and whether it is displayed.
   */
  datatype Injected = Injected(container: nat, anchor: nat, kind: Kind, text: string, visible: bool)

  /** makeIndicator: a "." span, hidden while answers are hidden. */
  function NewIndicator(ci: nat, anchor: nat, visible: bool): Injected {
    Injected(ci, anchor, Indicator, ".", visible)
  }

  /** makeAnswerDiv: a div with the answer text, hidden while answers are hidden. */
  function NewAnswerDiv(ci: nat, anchor: nat, text: string, visible: bool): Injected {
    Injected(ci, anchor, AnswerDiv, text, visible)
  }

  /** An indicator sitting on `v` or on an element inside it. */
  predicate IndicatorUnder(x: Injected, ci: nat, c: Container, v: nat) {
    x.container == ci && x.kind == Indicator && (x.anchor == v || IsAncestor(c, v, x.anchor))
  }

  /** `visual.querySelector('.nightfury-indicator')` finds something. */
  predicate HasIndicator(inj: seq<Injected>, ci: nat, c: Container, v: nat) {
    exists k :: 0 <= k < |inj| && IndicatorUnder(inj[k], ci, c, v)
  }

  /** Appends an indicator to `v` unless one is already there or inside it. */
  function MarkVisual(inj: seq<Injected>, ci: nat, c: Container, v: nat, vis: bool): seq<Injected> {
    if HasIndicator(inj, ci, c, v) then inj else inj + [NewIndicator(ci, v, vis)]
  }

  // ---------------------------------------------------------------------------
  // The choice branch (mcq and checkboxes)
  // ---------------------------------------------------------------------------

  const ChoiceSel: seq<Sel> := [Role("radio"), Role("checkbox"), Role("option"), Tag("label"), HasAttr("data-value")]
  const ChoiceContainerSel: seq<Sel> := [Role("listitem"), Role("radio"), Role("checkbox")]

  /** `opt.closest('[role="listitem"], [role="radio"], [role="checkbox"]') || opt.parentElement`. */
  function ChoiceKey(c: Container, opt: nat): Option<nat>
    requires opt < |c|
  {
    match Closest(c, opt, ChoiceContainerSel)
    case Some(k) => Some(k)
    case None => Parent(c, opt)
  }

  /** The state of the forEach over the option nodes: the marked containers and the injected nodes. */
  datatype Marking = Marking(marked: set<Option<nat>>, inj: seq<Injected>)

  /** One option node: marked when its label matches and its container is not marked yet. */
  function MarkChoice(ci: nat, c: Container, tokens: seq<string>, vis: bool, st: Marking, opt: nat): Marking {
    if opt >= |c| then st
    else
      var lab := ChoiceLabel(c[opt]);
      if !LabelMatches(lab, tokens) then st
      else
        var key := ChoiceKey(c, opt);
        if key in st.marked then st
        else Marking(st.marked + {key}, MarkVisual(st.inj, ci, c, VisualLabel(c, opt, lab), vis))
  }

  function MarkChoices(ci: nat, c: Container, tokens: seq<string>, vis: bool, st: Marking, nodes: seq<nat>): Marking {
    if nodes == [] then st
    else MarkChoice(ci, c, tokens, vis, MarkChoices(ci, c, tokens, vis, st, nodes[..|nodes| - 1]), nodes[|nodes| - 1])
  }

  lemma MarkChoicesStep(ci: nat, c: Container, tokens: seq<string>, vis: bool, st: Marking, nodes: seq<nat>, i: nat)
    requires i < |nodes|
    ensures MarkChoices(ci, c, tokens, vis, st, nodes[..i + 1])
         == MarkChoice(ci, c, tokens, vis, MarkChoices(ci, c, tokens, vis, st, nodes[..i]), nodes[i])
  {
    assert nodes[..i + 1][..i] == nodes[..i];
  }

  /** The choice branch, from the injected nodes before it. */
  function ChoiceRendered(ci: nat, c: Container, tokens: seq<string>, vis: bool, inj: seq<Injected>): seq<Injected> {
    MarkChoices(ci, c, tokens, vis, Marking({}, inj), QueryAll(c, 0, ChoiceSel)).inj
  }

  // ---------------------------------------------------------------------------
  // The list branch (dropdown and listbox)
  // ---------------------------------------------------------------------------

  const ListContainerSel: seq<Sel> := [Tag("select"), Role("listbox"), Role("list")]
  const ListItemSel: seq<Sel> := [Role("option"), HasAttr("data-value"), Tag("option")]

  /** One option element of the list: its visual label gets an indicator when its label matches. */
  function MarkListOption(ci: nat, c: Container, tokens: seq<string>, vis: bool, inj: seq<Injected>, opt: nat): seq<Injected> {
    if opt >= |c| then inj
    else
      var lab := ListLabel(c[opt]);
      if LabelMatches(lab, tokens) then MarkVisual(inj, ci, c, VisualLabel(c, opt, lab), vis) else inj
  }

  function MarkListOptions(ci: nat, c: Container, tokens: seq<string>, vis: bool, inj: seq<Injected>, nodes: seq<nat>): seq<Injected> {
    if nodes == [] then inj
    else MarkListOption(ci, c, tokens, vis, MarkListOptions(ci, c, tokens, vis, inj, nodes[..|nodes| - 1]), nodes[|nodes| - 1])
  }

  lemma MarkListOptionsStep(ci: nat, c: Container, tokens: seq<string>, vis: bool, inj: seq<Injected>, nodes: seq<nat>, i: nat)
    requires i < |nodes|
    ensures MarkListOptions(ci, c, tokens, vis, inj, nodes[..i + 1])
         == MarkListOption(ci, c, tokens, vis, MarkListOptions(ci, c, tokens, vis, inj, nodes[..i]), nodes[i])
  {
    assert nodes[..i + 1][..i] == nodes[..i];
  }

  /** The list branch: indicators on the matching options, then the answer text after the list. */
  function ListRendered(ci: nat, c: Container, tokens: seq<string>, vis: bool, inj: seq<Injected>, text: string): seq<Injected> {
    match Query(c, 0, ListContainerSel)
    case None => inj
    case Some(l) =>
      var marked := MarkListOptions(ci, c, tokens, vis, inj, QueryAll(c, l, ListItemSel));
      match Parent(c, l)
      case Some(p) => marked + [NewAnswerDiv(ci, p, text, vis)]
      case None => marked
  }

  // ---------------------------------------------------------------------------
  // The text branch (short answer and paragraph) and the fallback
  // ---------------------------------------------------------------------------

  const TextTargetSel: seq<Sel> := [Both(Tag("input"), AttrIs("type", "text")), Tag("textarea")]

  /** The answer text goes after the text input or textarea, when there is one. */
  function TextRendered(ci: nat, c: Container, vis: bool, inj: seq<Injected>, text: string): seq<Injected> {
    match Query(c, 0, TextTargetSel)
    case None => inj
    case Some(t) =>
      match Parent(c, t)
      case Some(p) => inj + [NewAnswerDiv(ci, p, text, vis)]
      case None => inj
  }

  predicate IsChoiceType(t: Option<QType>) { t == Some(Mcq) || t == Some(Checkboxes) }
  predicate IsListType(t: Option<QType>) { t == Some(Dropdown) || t == Some(Listbox) }
  predicate IsTextType(t: Option<QType>) { t == Some(ShortAnswer) || t == Some(Paragraph) }

  /**
   * displaySingleAnswer: the injected nodes after showing answer `a`, given those before it and
   * whether answers are currently displayed.
   */
  function Rendered(page: Page, inj: seq<Injected>, vis: bool, a: Answer): seq<Injected> {
    match Target(page, a.questionId)
    case None => inj
    case Some(ci) =>
      if IsFailure(a.answer) then inj
      else
        var c := page.containers[ci];
        var tokens := AnswerTokens(a.answer);
        if IsChoiceType(a.qtype) then ChoiceRendered(ci, c, tokens, vis, inj)
        else if IsListType(a.qtype) then ListRendered(ci, c, tokens, vis, inj, a.answer)
        else if IsTextType(a.qtype) then TextRendered(ci, c, vis, inj, a.answer)
        else inj + [NewAnswerDiv(ci, 0, a.answer, vis)]
  }

  // ---------------------------------------------------------------------------
  // What a render call adds
  // ---------------------------------------------------------------------------

  /**
   * `out` is `inj` with nodes appended, all of them in container `ci` and displayed exactly
   * when answers are displayed.
   */
  predicate Extends(inj: seq<Injected>, out: seq<Injected>, ci: nat, vis: bool) {
    |inj| <= |out| && out[..|inj|] == inj
    && forall k :: |inj| <= k < |out| ==> out[k].container == ci && out[k].visible == vis
  }

  lemma ExtendsTrans(a: seq<Injected>, b: seq<Injected>, d: seq<Injected>, ci: nat, vis: bool)
    requires Extends(a, b, ci, vis) && Extends(b, d, ci, vis)
    ensures Extends(a, d, ci, vis)
  {
    assert d[..|a|] == d[..|b|][..|a|];
  }

  lemma ExtendsAppend(inj: seq<Injected>, x: Injected, ci: nat, vis: bool)
    requires x.container == ci && x.visible == vis
    ensures Extends(inj, inj + [x], ci, vis)
  {
    assert (inj + [x])[..|inj|] == inj;
  }

  lemma ExtendsRefl(inj: seq<Injected>, ci: nat, vis: bool)
    ensures Extends(inj, inj, ci, vis)
  {
  }

  lemma MarkVisualExtends(inj: seq<Injected>, ci: nat, c: Container, v: nat, vis: bool)
    ensures Extends(inj, MarkVisual(inj, ci, c, v, vis), ci, vis)
    ensures |MarkVisual(inj, ci, c, v, vis)| <= |inj| + 1
    ensures HasIndicator(MarkVisual(inj, ci, c, v, vis), ci, c, v)
  {
    if !HasIndicator(inj, ci, c, v) {
      ExtendsAppend(inj, NewIndicator(ci, v, vis), ci, vis);
      assert IndicatorUnder(MarkVisual(inj, ci, c, v, vis)[|inj|], ci, c, v);
    }
  }

  /**
   * The choice branch only appends, and it appends at most one indicator for every option
   * container it marks.
   */
  lemma {:induction false} MarkChoicesExtends(ci: nat, c: Container, tokens: seq<string>, vis: bool, st: Marking, nodes: seq<nat>)
    ensures var r := MarkChoices(ci, c, tokens, vis, st, nodes);
      Extends(st.inj, r.inj, ci, vis) && st.marked <= r.marked
      && |r.inj| - |st.inj| <= |r.marked| - |st.marked|
    decreases |nodes|
  {
    if nodes != [] {
      var prev := MarkChoices(ci, c, tokens, vis, st, nodes[..|nodes| - 1]);
      MarkChoicesExtends(ci, c, tokens, vis, st, nodes[..|nodes| - 1]);
      var opt := nodes[|nodes| - 1];
      MarkChoiceExtends(ci, c, tokens, vis, prev, opt);
      ExtendsTrans(st.inj, prev.inj, MarkChoice(ci, c, tokens, vis, prev, opt).inj, ci, vis);
    }
  }

  /** One option node of MarkChoicesExtends. */
  lemma MarkChoiceExtends(ci: nat, c: Container, tokens: seq<string>, vis: bool, st: Marking, opt: nat)
    ensures var r := MarkChoice(ci, c, tokens, vis, st, opt);
      Extends(st.inj, r.inj, ci, vis) && st.marked <= r.marked
      && |r.inj| - |st.inj| <= |r.marked| - |st.marked|
  {
    if opt < |c| && LabelMatches(ChoiceLabel(c[opt]), tokens) && ChoiceKey(c, opt) !in st.marked {
      var v := VisualLabel(c, opt, ChoiceLabel(c[opt]));
      MarkChoiceTaken(ci, c, tokens, vis, st, opt);
      MarkVisualExtends(st.inj, ci, c, v, vis);
      MarkedGrows(st, ChoiceKey(c, opt), MarkVisual(st.inj, ci, c, v, vis), ci, vis);
    } else {
      ExtendsRefl(st.inj, ci, vis);
    }
  }

  lemma MarkChoiceTaken(ci: nat, c: Container, tokens: seq<string>, vis: bool, st: Marking, opt: nat)
    requires opt < |c| && LabelMatches(ChoiceLabel(c[opt]), tokens) && ChoiceKey(c, opt) !in st.marked
    ensures MarkChoice(ci, c, tokens, vis, st, opt)
         == Marking(st.marked + {ChoiceKey(c, opt)}, MarkVisual(st.inj, ci, c, VisualLabel(c, opt, ChoiceLabel(c[opt])), vis))
  {
  }

  /** Marking one new container while appending at most one node. */
  lemma MarkedGrows(st: Marking, key: Option<nat>, out: seq<Injected>, ci: nat, vis: bool)
    requires key !in st.marked && Extends(st.inj, out, ci, vis) && |out| <= |st.inj| + 1
    ensures var r := Marking(st.marked + {key}, out);
      Extends(st.inj, r.inj, ci, vis) && st.marked <= r.marked
      && |r.inj| - |st.inj| <= |r.marked| - |st.marked|
  {
    assert |st.marked + {key}| == |st.marked| + 1;
  }

  /**
   * The indicator guard as an invariant of the injected nodes: no indicator was appended to an
   * element that already had an indicator on it or inside it.
   */
  predicate GuardHolds(page: Page, inj: seq<Injected>) {
    forall j, k :: 0 <= j < k < |inj| && inj[k].kind == Indicator && inj[k].container < |page.containers| ==>
      !IndicatorUnder(inj[j], inj[k].container, page.containers[inj[k].container], inj[k].anchor)
  }

  /** In particular no element of a container ever carries two indicators. */
  lemma GuardNoTwins(page: Page, inj: seq<Injected>)
    requires GuardHolds(page, inj)
    ensures forall j, k ::
      (0 <= j < k < |inj| && inj[j].kind == Indicator && inj[k].kind == Indicator
       && inj[j].container == inj[k].container && inj[k].container < |page.containers|)
      ==> inj[j].anchor != inj[k].anchor
  {
  }

  lemma GuardAppendDiv(page: Page, inj: seq<Injected>, x: Injected)
    requires GuardHolds(page, inj) && x.kind == AnswerDiv
    ensures GuardHolds(page, inj + [x])
  {
    forall j, k | 0 <= j < k < |inj + [x]| && (inj + [x])[k].kind == Indicator
    ensures k < |inj| && (inj + [x])[j] == inj[j] && (inj + [x])[k] == inj[k]
    {
    }
  }

  lemma MarkVisualGuard(page: Page, inj: seq<Injected>, ci: nat, v: nat, vis: bool)
    requires ci < |page.containers| && GuardHolds(page, inj)
    ensures GuardHolds(page, MarkVisual(inj, ci, page.containers[ci], v, vis))
  {
    var c := page.containers[ci];
    if !HasIndicator(inj, ci, c, v) {
      var out := inj + [NewIndicator(ci, v, vis)];
      forall j, k | 0 <= j < k < |out| && out[k].kind == Indicator && out[k].container < |page.containers|
      ensures !IndicatorUnder(out[j], out[k].container, page.containers[out[k].container], out[k].anchor)
      {
        assert out[j] == inj[j];
        if k < |inj| {
          assert out[k] == inj[k];
        }
      }
    }
  }

  lemma {:induction false} MarkChoicesGuard(page: Page, ci: nat, tokens: seq<string>, vis: bool, st: Marking, nodes: seq<nat>)
    requires ci < |page.containers| && GuardHolds(page, st.inj)
    ensures GuardHolds(page, MarkChoices(ci, page.containers[ci], tokens, vis, st, nodes).inj)
    decreases |nodes|
  {
    if nodes != [] {
      var c := page.containers[ci];
      var prev := MarkChoices(ci, c, tokens, vis, st, nodes[..|nodes| - 1]);
      MarkChoicesGuard(page, ci, tokens, vis, st, nodes[..|nodes| - 1]);
      MarkChoiceGuard(page, ci, tokens, vis, prev, nodes[|nodes| - 1]);
    }
  }

  lemma MarkChoiceGuard(page: Page, ci: nat, tokens: seq<string>, vis: bool, st: Marking, opt: nat)
    requires ci < |page.containers| && GuardHolds(page, st.inj)
    ensures GuardHolds(page, MarkChoice(ci, page.containers[ci], tokens, vis, st, opt).inj)
  {
    var c := page.containers[ci];
    if opt < |c| {
      MarkVisualGuard(page, st.inj, ci, VisualLabel(c, opt, ChoiceLabel(c[opt])), vis);
    }
  }

  lemma {:induction false} MarkListOptionsGuard(page: Page, ci: nat, tokens: seq<string>, vis: bool, inj: seq<Injected>, nodes: seq<nat>)
    requires ci < |page.containers| && GuardHolds(page, inj)
    ensures GuardHolds(page, MarkListOptions(ci, page.containers[ci], tokens, vis, inj, nodes))
    decreases |nodes|
  {
    if nodes != [] {
      var c := page.containers[ci];
      var prev := MarkListOptions(ci, c, tokens, vis, inj, nodes[..|nodes| - 1]);
      MarkListOptionsGuard(page, ci, tokens, vis, inj, nodes[..|nodes| - 1]);
      var opt := nodes[|nodes| - 1];
      if opt < |c| {
        MarkVisualGuard(page, prev, ci, VisualLabel(c, opt, ListLabel(c[opt])), vis);
      }
    }
  }

  lemma {:induction false} MarkListOptionsExtends(ci: nat, c: Container, tokens: seq<string>, vis: bool, inj: seq<Injected>, nodes: seq<nat>)
    ensures Extends(inj, MarkListOptions(ci, c, tokens, vis, inj, nodes), ci, vis)
    decreases |nodes|
  {
    if nodes == [] {
      ExtendsRefl(inj, ci, vis);
    } else {
      var prev := MarkListOptions(ci, c, tokens, vis, inj, nodes[..|nodes| - 1]);
      MarkListOptionsExtends(ci, c, tokens, vis, inj, nodes[..|nodes| - 1]);
      var opt := nodes[|nodes| - 1];
      if opt < |c| {
        MarkVisualExtends(prev, ci, c, VisualLabel(c, opt, ListLabel(c[opt])), vis);
        ExtendsTrans(inj, prev, MarkListOption(ci, c, tokens, vis, prev, opt), ci, vis);
      }
    }
  }

  /** The number of answer divs among the injected nodes. */
  function Divs(inj: seq<Injected>): nat {
    if inj == [] then 0
    else Divs(inj[..|inj| - 1]) + (if inj[|inj| - 1].kind == AnswerDiv then 1 else 0)
  }

  lemma DivsAppend(inj: seq<Injected>, x: Injected)
    ensures Divs(inj + [x]) == Divs(inj) + (if x.kind == AnswerDiv then 1 else 0)
  {
    assert (inj + [x])[..|inj|] == inj;
  }

  lemma MarkVisualDivs(inj: seq<Injected>, ci: nat, c: Container, v: nat, vis: bool)
    ensures Divs(MarkVisual(inj, ci, c, v, vis)) == Divs(inj)
  {
    if !HasIndicator(inj, ci, c, v) {
      DivsAppend(inj, NewIndicator(ci, v, vis));
    }
  }

  lemma MarkChoiceDivs(ci: nat, c: Container, tokens: seq<string>, vis: bool, st: Marking, opt: nat)
    ensures Divs(MarkChoice(ci, c, tokens, vis, st, opt).inj) == Divs(st.inj)
  {
    if opt < |c| {
      MarkVisualDivs(st.inj, ci, c, VisualLabel(c, opt, ChoiceLabel(c[opt])), vis);
    }
  }

  lemma {:induction false} MarkChoicesDivs(ci: nat, c: Container, tokens: seq<string>, vis: bool, st: Marking, nodes: seq<nat>)
    ensures Divs(MarkChoices(ci, c, tokens, vis, st, nodes).inj) == Divs(st.inj)
    decreases |nodes|
  {
    if nodes != [] {
      var prev := MarkChoices(ci, c, tokens, vis, st, nodes[..|nodes| - 1]);
      MarkChoicesDivs(ci, c, tokens, vis, st, nodes[..|nodes| - 1]);
      MarkChoiceDivs(ci, c, tokens, vis, prev, nodes[|nodes| - 1]);
    }
  }

  lemma {:induction false} MarkListOptionsDivs(ci: nat, c: Container, tokens: seq<string>, vis: bool, inj: seq<Injected>, nodes: seq<nat>)
    ensures Divs(MarkListOptions(ci, c, tokens, vis, inj, nodes)) == Divs(inj)
    decreases |nodes|
  {
    if nodes != [] {
      var prev := MarkListOptions(ci, c, tokens, vis, inj, nodes[..|nodes| - 1]);
      MarkListOptionsDivs(ci, c, tokens, vis, inj, nodes[..|nodes| - 1]);
      var opt := nodes[|nodes| - 1];
      if opt < |c| {
        MarkVisualDivs(prev, ci, c, VisualLabel(c, opt, ListLabel(c[opt])), vis);
      }
    }
  }

  /**
   * Where an answer of type `t` puts its answer text in container `c`: after the list for
   * dropdown and listbox, after the text field for short answer and paragraph, at the end of
   * the container for every other type, and nowhere for choice questions.
   */
  function DivAnchor(c: Container, t: Option<QType>): Option<nat> {
    if IsChoiceType(t) then None
    else if IsListType(t) then
      match Query(c, 0, ListContainerSel)
      case Some(l) => Parent(c, l)
      case None => None
    else if IsTextType(t) then
      match Query(c, 0, TextTargetSel)
      case Some(x) => Parent(c, x)
      case None => None
    else Some(0)
  }

  /** One branch or the whole render: what it appends, the guard, and the answer div it adds. */
  predicate RenderStep(page: Page, ci: nat, t: Option<QType>, inj: seq<Injected>, out: seq<Injected>, vis: bool, text: string)
    requires ci < |page.containers|
  {
    && Extends(inj, out, ci, vis)
    && (GuardHolds(page, inj) ==> GuardHolds(page, out))
    && Divs(out) == Divs(inj) + (if DivAnchor(page.containers[ci], t).Some? then 1 else 0)
    && (DivAnchor(page.containers[ci], t).Some? ==>
          |out| > 0 && out[|out| - 1] == NewAnswerDiv(ci, DivAnchor(page.containers[ci], t).value, text, vis))
  }

  /** Indicators only: nodes appended in `ci`, the guard kept, no answer div added. */
  predicate Quiet(page: Page, ci: nat, inj: seq<Injected>, out: seq<Injected>, vis: bool) {
    Extends(inj, out, ci, vis) && (GuardHolds(page, inj) ==> GuardHolds(page, out)) && Divs(out) == Divs(inj)
  }

  lemma QuietStep(page: Page, ci: nat, t: Option<QType>, inj: seq<Injected>, out: seq<Injected>, vis: bool, text: string)
    requires ci < |page.containers| && DivAnchor(page.containers[ci], t).None? && Quiet(page, ci, inj, out, vis)
    ensures RenderStep(page, ci, t, inj, out, vis, text)
  {
  }

  lemma QuietThenDiv(page: Page, ci: nat, t: Option<QType>, inj: seq<Injected>, mid: seq<Injected>, vis: bool, text: string, p: nat)
    requires ci < |page.containers| && DivAnchor(page.containers[ci], t) == Some(p) && Quiet(page, ci, inj, mid, vis)
    ensures RenderStep(page, ci, t, inj, mid + [NewAnswerDiv(ci, p, text, vis)], vis, text)
  {
    var d := NewAnswerDiv(ci, p, text, vis);
    ExtendsAppend(mid, d, ci, vis);
    ExtendsTrans(inj, mid, mid + [d], ci, vis);
    if GuardHolds(page, inj) {
      GuardAppendDiv(page, mid, d);
    }
    DivsAppend(mid, d);
  }

  lemma QuietRefl(page: Page, ci: nat, inj: seq<Injected>, vis: bool)
    ensures Quiet(page, ci, inj, inj, vis)
  {
    ExtendsRefl(inj, ci, vis);
  }

  lemma ChoiceStep(page: Page, ci: nat, t: Option<QType>, tokens: seq<string>, vis: bool, inj: seq<Injected>, text: string)
    requires ci < |page.containers| && IsChoiceType(t)
    ensures RenderStep(page, ci, t, inj, ChoiceRendered(ci, page.containers[ci], tokens, vis, inj), vis, text)
  {
    var c := page.containers[ci];
    var st := Marking({}, inj);
    var nodes := QueryAll(c, 0, ChoiceSel);
    MarkChoicesExtends(ci, c, tokens, vis, st, nodes);
    if GuardHolds(page, inj) {
      MarkChoicesGuard(page, ci, tokens, vis, st, nodes);
    }
    MarkChoicesDivs(ci, c, tokens, vis, st, nodes);
    QuietStep(page, ci, t, inj, ChoiceRendered(ci, c, tokens, vis, inj), vis, text);
  }

  lemma ListQuiet(page: Page, ci: nat, tokens: seq<string>, vis: bool, inj: seq<Injected>, nodes: seq<nat>)
    requires ci < |page.containers|
    ensures Quiet(page, ci, inj, MarkListOptions(ci, page.containers[ci], tokens, vis, inj, nodes), vis)
  {
    var c := page.containers[ci];
    MarkListOptionsExtends(ci, c, tokens, vis, inj, nodes);
    if GuardHolds(page, inj) {
      MarkListOptionsGuard(page, ci, tokens, vis, inj, nodes);
    }
    MarkListOptionsDivs(ci, c, tokens, vis, inj, nodes);
  }

  lemma ListStep(page: Page, ci: nat, t: Option<QType>, tokens: seq<string>, vis: bool, inj: seq<Injected>, text: string)
    requires ci < |page.containers| && IsListType(t)
    ensures RenderStep(page, ci, t, inj, ListRendered(ci, page.containers[ci], tokens, vis, inj, text), vis, text)
  {
    var c := page.containers[ci];
    match Query(c, 0, ListContainerSel)
    case None =>
      QuietRefl(page, ci, inj, vis);
      QuietStep(page, ci, t, inj, inj, vis, text);
    case Some(l) =>
      var marked := MarkListOptions(ci, c, tokens, vis, inj, QueryAll(c, l, ListItemSel));
      ListQuiet(page, ci, tokens, vis, inj, QueryAll(c, l, ListItemSel));
      match Parent(c, l)
      case None => QuietStep(page, ci, t, inj, marked, vis, text);
      case Some(p) => QuietThenDiv(page, ci, t, inj, marked, vis, text, p);
  }

  /**
   * The text branch appends exactly one answer div, under the parent of the first text input or
   * textarea, and nothing else; without such an element (or its parent) it appends nothing.
   */
  lemma TextStep(page: Page, ci: nat, t: Option<QType>, vis: bool, inj: seq<Injected>, text: string)
    requires ci < |page.containers| && IsTextType(t)
    ensures RenderStep(page, ci, t, inj, TextRendered(ci, page.containers[ci], vis, inj, text), vis, text)
    ensures var anchor := DivAnchor(page.containers[ci], t);
      TextRendered(ci, page.containers[ci], vis, inj, text)
        == inj + (if anchor.Some? then [NewAnswerDiv(ci, anchor.value, text, vis)] else [])
  {
    var c := page.containers[ci];
    QuietRefl(page, ci, inj, vis);
    match Query(c, 0, TextTargetSel)
    case None => QuietStep(page, ci, t, inj, inj, vis, text);
    case Some(x) =>
      match Parent(c, x)
      case None => QuietStep(page, ci, t, inj, inj, vis, text);
      case Some(p) => QuietThenDiv(page, ci, t, inj, inj, vis, text, p);
  }

  lemma FallbackStep(page: Page, ci: nat, t: Option<QType>, vis: bool, inj: seq<Injected>, text: string)
    requires ci < |page.containers| && !IsChoiceType(t) && !IsListType(t) && !IsTextType(t)
    ensures RenderStep(page, ci, t, inj, inj + [NewAnswerDiv(ci, 0, text, vis)], vis, text)
  {
    QuietRefl(page, ci, inj, vis);
    QuietThenDiv(page, ci, t, inj, inj, vis, text, 0);
  }

  /**
   * displaySingleAnswer changes nothing when the id points at no container or the answer is a
   * failure. Otherwise it only appends nodes to the answer's container, displayed exactly when
   * answers are displayed, never puts an indicator where one already is, and adds exactly one
   * answer div, at the end and carrying the answer text, when the type has a place for it.
   */
  lemma RenderedSpec(page: Page, inj: seq<Injected>, vis: bool, a: Answer)
    ensures Target(page, a.questionId).None? || IsFailure(a.answer) ==> Rendered(page, inj, vis, a) == inj
    ensures Target(page, a.questionId).Some? && !IsFailure(a.answer) ==>
      RenderStep(page, Target(page, a.questionId).value, a.qtype, inj, Rendered(page, inj, vis, a), vis, a.answer)
  {
    match Target(page, a.questionId)
    case None =>
    case Some(ci) =>
      if !IsFailure(a.answer) {
        var tokens := AnswerTokens(a.answer);
        if IsChoiceType(a.qtype) {
          ChoiceStep(page, ci, a.qtype, tokens, vis, inj, a.answer);
        } else if IsListType(a.qtype) {
          ListStep(page, ci, a.qtype, tokens, vis, inj, a.answer);
        } else if IsTextType(a.qtype) {
          TextStep(page, ci, a.qtype, vis, inj, a.answer);
        } else {
          FallbackStep(page, ci, a.qtype, vis, inj, a.answer);
        }
      }
  }

  /** An answer for `question-<idx>` changes nothing when there is no idx-th container or it failed. */
  lemma RenderedSilent(page: Page, inj: seq<Injected>, vis: bool, idx: nat, t: Option<QType>, answer: string)
    requires idx >= |page.containers| || IsFailure(answer)
    ensures Rendered(page, inj, vis, Answer(QuestionId(idx), t, answer)) == inj
  {
    TargetOfId(page, idx);
  }

  /**
   * Answer divs are never replaced: delivering the same answer twice leaves two answer divs
   * wherever the type has a place for one.
   */
  lemma DivsAccumulate(page: Page, inj: seq<Injected>, vis: bool, a: Answer)
    requires Target(page, a.questionId).Some? && !IsFailure(a.answer)
    requires DivAnchor(page.containers[Target(page, a.questionId).value], a.qtype).Some?
    ensures Divs(Rendered(page, Rendered(page, inj, vis, a), vis, a)) == Divs(inj) + 2
  {
    RenderedSpec(page, inj, vis, a);
    RenderedSpec(page, Rendered(page, inj, vis, a), vis, a);
  }

  // ---------------------------------------------------------------------------
  // Re-rendering a choice answer
  // ---------------------------------------------------------------------------

  /**
   * The containers the choice branch marks, the option nodes it picks (one per container it
   * marks) and the visual labels of those options, in order.
   */
  datatype Walk = Walk(marked: set<Option<nat>>, picks: seq<nat>, visuals: seq<nat>)

  function ChoiceWalk(c: Container, tokens: seq<string>, m: set<Option<nat>>, nodes: seq<nat>): Walk {
    if nodes == [] then Walk(m, [], [])
    else WalkOne(c, tokens, ChoiceWalk(c, tokens, m, nodes[..|nodes| - 1]), nodes[|nodes| - 1])
  }

  /** The walk's step for one option node: picked when its label matches and its container is new. */
  function WalkOne(c: Container, tokens: seq<string>, w: Walk, opt: nat): Walk {
    if opt >= |c| then w
    else
      var lab := ChoiceLabel(c[opt]);
      if !LabelMatches(lab, tokens) || ChoiceKey(c, opt) in w.marked then w
      else Walk(w.marked + {ChoiceKey(c, opt)}, w.picks + [opt], w.visuals + [VisualLabel(c, opt, lab)])
  }

  /** MarkVisual on each of `vs` in turn. */
  function MarkAll(inj: seq<Injected>, ci: nat, c: Container, vs: seq<nat>, vis: bool): seq<Injected> {
    if vs == [] then inj
    else MarkVisual(MarkAll(inj, ci, c, vs[..|vs| - 1], vis), ci, c, vs[|vs| - 1], vis)
  }

  /** The choice branch is the walk over the options followed by marking the visuals it found. */
  lemma {:induction false} MarkChoicesWalk(ci: nat, c: Container, tokens: seq<string>, vis: bool, m: set<Option<nat>>, inj: seq<Injected>, nodes: seq<nat>)
    ensures MarkChoices(ci, c, tokens, vis, Marking(m, inj), nodes)
         == Marking(ChoiceWalk(c, tokens, m, nodes).marked, MarkAll(inj, ci, c, ChoiceWalk(c, tokens, m, nodes).visuals, vis))
    decreases |nodes|
  {
    if nodes != [] {
      MarkChoicesWalk(ci, c, tokens, vis, m, inj, nodes[..|nodes| - 1]);
      MarkChoiceWalkOne(ci, c, tokens, vis, inj, ChoiceWalk(c, tokens, m, nodes[..|nodes| - 1]), nodes[|nodes| - 1]);
    }
  }

  /** One option node: MarkChoice after marking a walk's visuals is marking the extended walk's visuals. */
  lemma MarkChoiceWalkOne(ci: nat, c: Container, tokens: seq<string>, vis: bool, inj: seq<Injected>, w: Walk, opt: nat)
    ensures MarkChoice(ci, c, tokens, vis, Marking(w.marked, MarkAll(inj, ci, c, w.visuals, vis)), opt)
         == Marking(WalkOne(c, tokens, w, opt).marked, MarkAll(inj, ci, c, WalkOne(c, tokens, w, opt).visuals, vis))
  {
    if opt < |c| {
      MarkAllSnoc(inj, ci, c, w.visuals, VisualLabel(c, opt, ChoiceLabel(c[opt])), vis);
    }
  }

  lemma MarkAllSnoc(inj: seq<Injected>, ci: nat, c: Container, vs: seq<nat>, v: nat, vis: bool)
    ensures MarkAll(inj, ci, c, vs + [v], vis) == MarkVisual(MarkAll(inj, ci, c, vs, vis), ci, c, v, vis)
  {
    assert (vs + [v])[..|vs|] == vs;
  }

  lemma HasIndicatorGrows(inj: seq<Injected>, out: seq<Injected>, ci: nat, c: Container, v: nat)
    requires |inj| <= |out| && out[..|inj|] == inj && HasIndicator(inj, ci, c, v)
    ensures HasIndicator(out, ci, c, v)
  {
    var k :| 0 <= k < |inj| && IndicatorUnder(inj[k], ci, c, v);
    assert out[k] == inj[k];
  }

  lemma {:induction false} MarkAllMarks(inj: seq<Injected>, ci: nat, c: Container, vs: seq<nat>, vis: bool)
    ensures var out := MarkAll(inj, ci, c, vs, vis);
      |inj| <= |out| && out[..|inj|] == inj
      && forall i :: 0 <= i < |vs| ==> HasIndicator(out, ci, c, vs[i])
    decreases |vs|
  {
    if vs != [] {
      var init := vs[..|vs| - 1];
      var prev := MarkAll(inj, ci, c, init, vis);
      var out := MarkAll(inj, ci, c, vs, vis);
      MarkAllMarks(inj, ci, c, init, vis);
      MarkVisualExtends(prev, ci, c, vs[|vs| - 1], vis);
      assert out[..|inj|] == out[..|prev|][..|inj|];
      forall i | 0 <= i < |vs| ensures HasIndicator(out, ci, c, vs[i]) {
        if i < |vs| - 1 {
          assert vs[i] == init[i];
          HasIndicatorGrows(prev, out, ci, c, vs[i]);
        }
      }
    }
  }

  lemma {:induction false} MarkAllMarked(inj: seq<Injected>, ci: nat, c: Container, vs: seq<nat>, vis: bool)
    requires forall i :: 0 <= i < |vs| ==> HasIndicator(inj, ci, c, vs[i])
    ensures MarkAll(inj, ci, c, vs, vis) == inj
    decreases |vs|
  {
    if vs != [] {
      var init := vs[..|vs| - 1];
      forall i | 0 <= i < |init| ensures HasIndicator(inj, ci, c, init[i]) {
        assert init[i] == vs[i];
      }
      MarkAllMarked(inj, ci, c, init, vis);
    }
  }

  /**
   * Showing a choice answer again adds nothing: every visual label the first pass tried now
   * holds an indicator, and the second pass tries the same ones.
   */
  lemma ChoiceIdempotent(ci: nat, c: Container, tokens: seq<string>, vis: bool, inj: seq<Injected>)
    ensures ChoiceRendered(ci, c, tokens, vis, ChoiceRendered(ci, c, tokens, vis, inj))
         == ChoiceRendered(ci, c, tokens, vis, inj)
  {
    var nodes := QueryAll(c, 0, ChoiceSel);
    var vs := ChoiceWalk(c, tokens, {}, nodes).visuals;
    var once := ChoiceRendered(ci, c, tokens, vis, inj);
    MarkChoicesWalk(ci, c, tokens, vis, {}, inj, nodes);
    MarkChoicesWalk(ci, c, tokens, vis, {}, once, nodes);
    MarkAllMarks(inj, ci, c, vs, vis);
    MarkAllMarked(once, ci, c, vs, vis);
  }

  /** Delivering the same mcq or checkboxes answer twice shows it once. */
  lemma ChoiceRerender(page: Page, inj: seq<Injected>, vis: bool, a: Answer)
    requires IsChoiceType(a.qtype)
    ensures Rendered(page, Rendered(page, inj, vis, a), vis, a) == Rendered(page, inj, vis, a)
  {
    match Target(page, a.questionId)
    case None =>
    case Some(ci) =>
      if !IsFailure(a.answer) {
        ChoiceIdempotent(ci, page.containers[ci], AnswerTokens(a.answer), vis, inj);
      }
  }

  // ---------------------------------------------------------------------------
  // findVisualLabel as the content script runs it
  // ---------------------------------------------------------------------------

  lemma FirstNamingAt(c: Container, nodes: seq<nat>, labelText: string, skip: Option<nat>, i: nat)
    requires i < |nodes|
    ensures FirstNaming(c, nodes[i..], labelText, skip)
         == if nodes[i] < |c| && skip != Some(nodes[i]) && Names(c[nodes[i]], labelText) then Some(nodes[i])
            else FirstNaming(c, nodes[i + 1..], labelText, skip)
  {
    assert nodes[i..][0] == nodes[i] && nodes[i..][1..] == nodes[i + 1..];
  }

  /** The first-match loop over `nodes`, skipping `skip`. */
  method FindNaming(c: Container, nodes: seq<nat>, labelText: string, skip: Option<nat>) returns (r: Option<nat>)
    ensures r == FirstNaming(c, nodes, labelText, skip)
  {
    var i := 0;
    while i < |nodes|
      invariant i <= |nodes|
      invariant FirstNaming(c, nodes, labelText, skip) == FirstNaming(c, nodes[i..], labelText, skip)
    {
      var n := nodes[i];
      FirstNamingAt(c, nodes, labelText, skip, i);
      if n < |c| && skip != Some(n) {
        var t := CandidateText(c[n]);
        if |t| != 0 && |labelText| != 0 {
          var low := Lower(Trim(t));
          if low == labelText || Contains(low, labelText) {
            return Some(n);
          }
        }
      }
      i := i + 1;
    }
    return None;
  }

  /**
   * findVisualLabel: the candidates inside the option, then its siblings, then the first span,
   * label or div under its parent, then the option itself.
   */
  method FindVisualLabel(c: Container, opt: nat, labelText: string) returns (v: nat)
    requires opt < |c|
    ensures v == VisualLabel(c, opt, labelText)
  {
    var inside := FindNaming(c, QueryAll(c, opt, LabelSel), labelText, None);
    if inside.Some? {
      return inside.value;
    }
    var parent := Parent(c, opt);
    if parent.None? {
      return opt;
    }
    var sib := FindNaming(c, Children(c, parent.value), labelText, Some(opt));
    if sib.Some? {
      return sib.value;
    }
    var sibLabel := Query(c, parent.value, LabelSel);
    if sibLabel.Some? && HasLabelText(c[sibLabel.value]) {
      return sibLabel.value;
    }
    return opt;
  }
}
