/**
 * The content script's module-level state: the stored answers, whether answers are displayed,
 * and the nodes it has injected into the page. The message handler's three actions (load,
 * receive one answer, toggle) become methods of one session object over a fixed page.
 */
module Session {
  import opened Wrappers
  import opened Dom
  import opened FormParser
  import opened AnswerRenderer

  // ---------------------------------------------------------------------------
  // storedAnswers
  // ---------------------------------------------------------------------------

  /** `findIndex(a => a.questionId === id)`: the first entry for `id`, when there is one. */
  function AnswerIndex(stored: seq<Answer>, id: string): (r: Option<nat>)
    ensures r.Some? ==> r.value < |stored| && stored[r.value].questionId == id
    ensures r.Some? ==> forall j :: 0 <= j < r.value ==> stored[j].questionId != id
    ensures r.None? ==> forall j :: 0 <= j < |stored| ==> stored[j].questionId != id
  {
    if stored == [] then None
    else if stored[0].questionId == id then Some(0)
    else match AnswerIndex(stored[1..], id)
      case Some(i) => Some(i + 1)
      case None => None
  }

  /** Replace the entry for the answer's question in place, or append the answer. */
  function Upsert(stored: seq<Answer>, a: Answer): seq<Answer> {
    match AnswerIndex(stored, a.questionId)
    case Some(i) => stored[i := a]
    case None => stored + [a]
  }

  /** The stored answer for `id`. */
  function Lookup(stored: seq<Answer>, id: string): Option<Answer> {
    match AnswerIndex(stored, id)
    case Some(i) => Some(stored[i])
    case None => None
  }

  /** At most one stored answer per question id. */
  predicate UniqueIds(stored: seq<Answer>) {
    forall i, j :: 0 <= i < j < |stored| ==> stored[i].questionId != stored[j].questionId
  }

  /**
   * The upsert keeps one entry per question: afterwards the answer's question maps to the new
   * answer, every other question to what it mapped to before, and the list grows by one
   * exactly when the question was new.
   */
  lemma UpsertSpec(stored: seq<Answer>, a: Answer)
    ensures UniqueIds(stored) ==> UniqueIds(Upsert(stored, a))
    ensures Lookup(Upsert(stored, a), a.questionId) == Some(a)
    ensures forall id :: id != a.questionId ==> Lookup(Upsert(stored, a), id) == Lookup(stored, id)
    ensures |Upsert(stored, a)| == |stored| + (if Lookup(stored, a.questionId).None? then 1 else 0)
  {
    var r := Upsert(stored, a);
    forall id | id != a.questionId ensures Lookup(r, id) == Lookup(stored, id) {
      LookupUnder(stored, a, id);
    }
    match AnswerIndex(stored, a.questionId)
    case Some(i) =>
      assert r[i] == a;
      forall j | 0 <= j < i ensures r[j].questionId != a.questionId {
        assert r[j] == stored[j];
      }
    case None =>
      assert r[|stored|] == a;
      forall j | 0 <= j < |stored| ensures r[j].questionId != a.questionId {
        assert r[j] == stored[j];
      }
  }

  /** Entries for other questions are found where they were. */
  lemma LookupUnder(stored: seq<Answer>, a: Answer, id: string)
    requires id != a.questionId
    ensures Lookup(Upsert(stored, a), id) == Lookup(stored, id)
  {
    var r := Upsert(stored, a);
    assert |stored| <= |r|;
    forall j | 0 <= j < |r| ensures (r[j].questionId == id) == (j < |stored| && stored[j].questionId == id) {
      if j < |stored| && r[j] != stored[j] {
        assert r[j] == a;
      }
    }
    match AnswerIndex(stored, id)
    case Some(k) =>
      var m := AnswerIndex(r, id);
      assert r[k].questionId == id;
      assert m == Some(k);
      assert r[k] == stored[k];
    case None =>
      assert AnswerIndex(r, id).None?;
  }

  /** Re-delivering the same answer leaves the stored answers as they are. */
  lemma UpsertIdempotent(stored: seq<Answer>, a: Answer)
    ensures Upsert(Upsert(stored, a), a) == Upsert(stored, a)
  {
    var r := Upsert(stored, a);
    match AnswerIndex(stored, a.questionId)
    case Some(i) =>
      forall j | 0 <= j < i ensures r[j].questionId != a.questionId {
        assert r[j] == stored[j];
      }
      assert r[i] == a;
      assert AnswerIndex(r, a.questionId) == Some(i);
      assert r[i := a] == r;
    case None =>
      forall j | 0 <= j < |stored| ensures r[j].questionId != a.questionId {
        assert r[j] == stored[j];
      }
      assert r[|stored|] == a;
      assert AnswerIndex(r, a.questionId) == Some(|stored|);
      assert r[|stored| := a] == r;
  }

  /** The same findIndex as a loop. */
  method FindAnswerIndex(stored: seq<Answer>, id: string) returns (r: Option<nat>)
    ensures r == AnswerIndex(stored, id)
  {
    var i := 0;
    while i < |stored|
      invariant i <= |stored|
      invariant forall j :: 0 <= j < i ==> stored[j].questionId != id
    {
      if stored[i].questionId == id {
        return Some(i);
      }
      i := i + 1;
    }
    return None;
  }

  // ---------------------------------------------------------------------------
  // Showing and hiding
  // ---------------------------------------------------------------------------

  /** Every injected node with its display set to `vis`. */
  function SetVisible(inj: seq<Injected>, vis: bool): (r: seq<Injected>)
    ensures |r| == |inj|
  {
    seq(|inj|, k requires 0 <= k < |inj| => inj[k].(visible := vis))
  }

  predicate AllVisible(inj: seq<Injected>, vis: bool) {
    forall k :: 0 <= k < |inj| ==> inj[k].visible == vis
  }

  /** Showing an answer keeps every node at the current display and keeps the guard. */
  lemma RenderedKeeps(page: Page, inj: seq<Injected>, vis: bool, a: Answer)
    requires AllVisible(inj, vis) && GuardHolds(page, inj)
    ensures AllVisible(Rendered(page, inj, vis, a), vis) && GuardHolds(page, Rendered(page, inj, vis, a))
  {
    RenderedSpec(page, inj, vis, a);
    var out := Rendered(page, inj, vis, a);
    if Target(page, a.questionId).Some? && !IsFailure(a.answer) {
      forall k | 0 <= k < |out| ensures out[k].visible == vis {
        if k < |inj| {
          assert out[k] == out[..|inj|][k];
        }
      }
    }
  }

  /**
   * Setting the display changes nothing else: afterwards every node shows `vis`, the guard
   * still holds, and setting it back restores nodes that all showed the old value.
   */
  lemma SetVisibleSpec(page: Page, inj: seq<Injected>, vis: bool)
    ensures AllVisible(SetVisible(inj, vis), vis)
    ensures GuardHolds(page, inj) ==> GuardHolds(page, SetVisible(inj, vis))
    ensures AllVisible(inj, !vis) ==> SetVisible(SetVisible(inj, vis), !vis) == inj
  {
    var r := SetVisible(inj, vis);
    assert forall k :: 0 <= k < |inj| ==> r[k].kind == inj[k].kind && r[k].anchor == inj[k].anchor && r[k].container == inj[k].container;
    if AllVisible(inj, !vis) {
      var back := SetVisible(r, !vis);
      forall k | 0 <= k < |inj| ensures back[k] == inj[k] {
      }
    }
  }

  // ---------------------------------------------------------------------------
  // The session
  // ---------------------------------------------------------------------------

  class RenderSession {
    /** The document the content script runs in. */
    const page: Page
    /** `storedAnswers`, None while it is still null. */
    var storedAnswers: Option<seq<Answer>>
    /** `answersVisible`. */
    var answersVisible: bool
    /** The `.nightfury-injected-element` nodes, in the order they were appended. */
    var injected: seq<Injected>

    /**
     * Every injected node is displayed exactly when answers are displayed, none was put where
     * an indicator already was, nothing is injected before the first answer arrives, and no two
     * stored answers share a question id.
     */
    ghost predicate Valid()
      reads this
    {
      && AllVisible(injected, answersVisible)
      && GuardHolds(page, injected)
      && (storedAnswers.None? ==> injected == [])
      && (storedAnswers.Some? ==> UniqueIds(storedAnswers.value))
    }

    /** A fresh content script: no answers, answers hidden, nothing injected. */
    constructor(page: Page)
      ensures Valid()
      ensures this.page == page && storedAnswers.None? && !answersVisible && injected == []
    {
      this.page := page;
      storedAnswers := None;
      answersVisible := false;
      injected := [];
    }

    /** clearInjectedElements: removes every injected node and nothing of the page. */
    method ClearInjectedElements()
      requires Valid()
      modifies this
      ensures Valid()
      ensures injected == []
      ensures storedAnswers == old(storedAnswers) && answersVisible == old(answersVisible)
    {
      injected := [];
    }

    /**
     * The load-answers action: clear, reset the stored answers, display answers, parse the form,
     * and ask for answers when there is at least one question.
     */
    method LoadAnswers() returns (request: Option<seq<Question>>)
      requires Valid()
      modifies this
      ensures Valid()
      ensures storedAnswers == Some([]) && answersVisible && injected == []
      ensures request.Some? <==> |page.containers| > 0
      ensures request.Some? ==> request.value == ParseQuestions(page, |page.containers|)
    {
      ClearInjectedElements();
      storedAnswers := Some([]);
      answersVisible := true;
      var questions := ParseForm(page);
      if |questions| > 0 {
        request := Some(questions);
      } else {
        request := None;
      }
    }

    /** makeIndicator appended to `v` unless `v` already holds an indicator. */
    method AddIndicator(ci: nat, c: Container, v: nat)
      modifies this
      ensures injected == MarkVisual(old(injected), ci, c, v, answersVisible)
      ensures storedAnswers == old(storedAnswers) && answersVisible == old(answersVisible)
    {
      if !HasIndicator(injected, ci, c, v) {
        injected := injected + [NewIndicator(ci, v, answersVisible)];
      }
    }

    /** makeAnswerDiv appended to `anchor`. */
    method AddAnswerDiv(ci: nat, anchor: nat, text: string)
      modifies this
      ensures injected == old(injected) + [NewAnswerDiv(ci, anchor, text, answersVisible)]
      ensures storedAnswers == old(storedAnswers) && answersVisible == old(answersVisible)
    {
      injected := injected + [NewAnswerDiv(ci, anchor, text, answersVisible)];
    }

    /** The mcq and checkboxes branch: the forEach over the option nodes. */
    method ChoiceBranch(ci: nat, c: Container, tokens: seq<string>)
      modifies this
      ensures injected == ChoiceRendered(ci, c, tokens, answersVisible, old(injected))
      ensures storedAnswers == old(storedAnswers) && answersVisible == old(answersVisible)
    {
      var nodes := QueryAll(c, 0, ChoiceSel);
      var marked: set<Option<nat>> := {};
      ghost var start := Marking({}, injected);
      for i := 0 to |nodes|
        invariant Marking(marked, injected) == MarkChoices(ci, c, tokens, answersVisible, start, nodes[..i])
        invariant storedAnswers == old(storedAnswers) && answersVisible == old(answersVisible)
      {
        MarkChoicesStep(ci, c, tokens, answersVisible, start, nodes, i);
        var opt := nodes[i];
        if opt < |c| {
          var labelText := ChoiceLabel(c[opt]);
          if LabelMatches(labelText, tokens) {
            var key := ChoiceKey(c, opt);
            if key !in marked {
              marked := marked + {key};
              var visual := FindVisualLabel(c, opt, labelText);
              AddIndicator(ci, c, visual);
            }
          }
        }
      }
      assert nodes[..|nodes|] == nodes;
    }

    /** The dropdown and listbox branch: indicators on the matching options, then the answer text. */
    method ListBranch(ci: nat, c: Container, tokens: seq<string>, text: string)
      modifies this
      ensures injected == ListRendered(ci, c, tokens, answersVisible, old(injected), text)
      ensures storedAnswers == old(storedAnswers) && answersVisible == old(answersVisible)
    {
      var listContainer := Query(c, 0, ListContainerSel);
      if listContainer.None? {
        return;
      }
      var l := listContainer.value;
      var optionEls := QueryAll(c, l, ListItemSel);
      ghost var start := injected;
      for i := 0 to |optionEls|
        invariant injected == MarkListOptions(ci, c, tokens, answersVisible, start, optionEls[..i])
        invariant storedAnswers == old(storedAnswers) && answersVisible == old(answersVisible)
      {
        MarkListOptionsStep(ci, c, tokens, answersVisible, start, optionEls, i);
        var opt := optionEls[i];
        if opt < |c| {
          var labLower := ListLabel(c[opt]);
          if LabelMatches(labLower, tokens) {
            var visual := FindVisualLabel(c, opt, labLower);
            AddIndicator(ci, c, visual);
          }
        }
      }
      assert optionEls[..|optionEls|] == optionEls;
      var parent := Parent(c, l);
      if parent.Some? {
        AddAnswerDiv(ci, parent.value, text);
      }
    }

    /** The short answer and paragraph branch. */
    method TextBranch(ci: nat, c: Container, text: string)
      modifies this
      ensures injected == TextRendered(ci, c, answersVisible, old(injected), text)
      ensures storedAnswers == old(storedAnswers) && answersVisible == old(answersVisible)
    {
      var target := Query(c, 0, TextTargetSel);
      if target.Some? {
        var parent := Parent(c, target.value);
        if parent.Some? {
          AddAnswerDiv(ci, parent.value, text);
        }
      }
    }

    /** displaySingleAnswer. */
    method DisplaySingleAnswer(a: Answer)
      modifies this
      ensures injected == Rendered(page, old(injected), answersVisible, a)
      ensures storedAnswers == old(storedAnswers) && answersVisible == old(answersVisible)
    {
      var target := Target(page, a.questionId);
      if target.None? {
        return;
      }
      if IsFailure(a.answer) {
        return;
      }
      var ci := target.value;
      var c := page.containers[ci];
      var tokens := AnswerTokens(a.answer);
      if IsChoiceType(a.qtype) {
        ChoiceBranch(ci, c, tokens);
      } else if IsListType(a.qtype) {
        ListBranch(ci, c, tokens, a.answer);
      } else if IsTextType(a.qtype) {
        TextBranch(ci, c, a.answer);
      } else {
        AddAnswerDiv(ci, 0, a.answer);
      }
    }

    /** The displaySingleAnswer action: upsert the answer, then show it. */
    method ReceiveAnswer(a: Answer)
      requires Valid()
      modifies this
      ensures Valid()
      ensures storedAnswers == Some(Upsert(if old(storedAnswers).Some? then old(storedAnswers).value else [], a))
      ensures answersVisible == old(answersVisible)
      ensures injected == Rendered(page, old(injected), answersVisible, a)
    {
      if storedAnswers.None? {
        storedAnswers := Some([]);
      }
      var stored := storedAnswers.value;
      UpsertSpec(stored, a);
      var idx := FindAnswerIndex(stored, a.questionId);
      if idx.Some? {
        stored := stored[idx.value := a];
      } else {
        stored := stored + [a];
      }
      storedAnswers := Some(stored);
      ghost var before := injected;
      DisplaySingleAnswer(a);
      RenderedKeeps(page, before, answersVisible, a);
    }

    /**
     * toggleVisibility: nothing while no answers were ever received or loaded; otherwise flip
     * answersVisible and set every injected node's display to match.
     */
    method ToggleVisibility()
      requires Valid()
      modifies this
      ensures Valid()
      ensures storedAnswers == old(storedAnswers)
      ensures old(storedAnswers).None? ==> answersVisible == old(answersVisible) && injected == old(injected)
      ensures old(storedAnswers).Some? ==>
        answersVisible == !old(answersVisible) && injected == SetVisible(old(injected), answersVisible)
    {
      if storedAnswers.None? {
        return;
      }
      answersVisible := !answersVisible;
      ghost var before := injected;
      for i := 0 to |injected|
        invariant |injected| == |before|
        invariant forall k :: 0 <= k < i ==> injected[k] == before[k].(visible := answersVisible)
        invariant forall k :: i <= k < |injected| ==> injected[k] == before[k]
        invariant storedAnswers == old(storedAnswers) && answersVisible == !old(answersVisible)
      {
        injected := injected[i := injected[i].(visible := answersVisible)];
      }
      assert injected == SetVisible(before, answersVisible);
      SetVisibleSpec(page, before, answersVisible);
    }
  }

  /** Toggling twice restores every node's display and the flag. */
  lemma ToggleTwice(page: Page, inj: seq<Injected>, vis: bool)
    requires AllVisible(inj, vis)
    ensures SetVisible(SetVisible(inj, !vis), vis) == inj
  {
    SetVisibleSpec(page, inj, !vis);
  }
}
