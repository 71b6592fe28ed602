/**
 * Which options the choice and list branches of displaySingleAnswer mark. The choice branch
 * marks, for every option container (`closest` listitem/radio/checkbox, else the parent), the
 * visual label of the first option node of that container whose label matches an answer token,
 * and no other element; the list branch marks the visual label of every matching list option.
 *
 * Both are proved over candidates: per option node, whether its label matches, its container
 * and its visual label.
 */
module AnswerMarks {
  import opened Wrappers
  import opened Dom
  import opened AnswerRenderer

  /** One option node as the branches see it: does its label match, its container, its visual label. */
  datatype Cand = Cand(hit: bool, key: Option<nat>, visual: nat)

  // ---------------------------------------------------------------------------
  // The first matching candidate of every container
  // ---------------------------------------------------------------------------

  /** Some matching candidate before position `n` has container `key`. */
  predicate Seen(cs: seq<Cand>, n: nat, key: Option<nat>)
    requires n <= |cs|
  {
    exists j :: 0 <= j < n && cs[j].hit && cs[j].key == key
  }

  /** `cs[i]` matches, its container is not in `m`, and no earlier matching candidate has that container. */
  predicate FirstOf(cs: seq<Cand>, m: set<Option<nat>>, i: nat)
    requires i < |cs|
  {
    cs[i].hit && cs[i].key !in m && !Seen(cs, i, cs[i].key)
  }

  /** The containers marked so far and the positions picked, in order. */
  datatype Picked = Picked(marked: set<Option<nat>>, at: seq<nat>)

  /** The forEach with its `markedContainers` set over the first `n` candidates. */
  function PickFirsts(cs: seq<Cand>, m: set<Option<nat>>, n: nat): Picked
    requires n <= |cs|
  {
    if n == 0 then Picked(m, [])
    else
      var p := PickFirsts(cs, m, n - 1);
      var x := cs[n - 1];
      if x.hit && x.key !in p.marked then Picked(p.marked + {x.key}, p.at + [n - 1]) else p
  }

  lemma SeenStep(cs: seq<Cand>, n: nat, key: Option<nat>)
    requires n < |cs|
    ensures Seen(cs, n + 1, key) <==> Seen(cs, n, key) || (cs[n].hit && cs[n].key == key)
  {
    if Seen(cs, n + 1, key) && !(cs[n].hit && cs[n].key == key) {
      var j :| 0 <= j < n + 1 && cs[j].hit && cs[j].key == key;
      assert j < n;
    }
  }

  /**
   * The marked containers are `m` and those of the matching candidates, and the picks are, in
   * increasing order, exactly the first matching candidates of each container not in `m`.
   */
  lemma {:induction false} PickFirstsSpec(cs: seq<Cand>, m: set<Option<nat>>, n: nat)
    requires n <= |cs|
    ensures var p := PickFirsts(cs, m, n);
      && (forall key :: key in p.marked <==> key in m || Seen(cs, n, key))
      && (forall k :: 0 <= k < |p.at| ==> p.at[k] < n && FirstOf(cs, m, p.at[k]))
      && (forall s, t :: 0 <= s < t < |p.at| ==> p.at[s] < p.at[t])
      && (forall i :: 0 <= i < n && FirstOf(cs, m, i) ==> i in p.at)
    decreases n
  {
    if n > 0 {
      PickFirstsSpec(cs, m, n - 1);
      forall key
        ensures Seen(cs, n, key) <==> Seen(cs, n - 1, key) || (cs[n - 1].hit && cs[n - 1].key == key)
      {
        SeenStep(cs, n - 1, key);
      }
    }
  }

  /** Two first matching candidates never share a container. */
  lemma FirstOfDistinct(cs: seq<Cand>, m: set<Option<nat>>, i: nat, j: nat)
    requires i < j < |cs| && FirstOf(cs, m, i) && FirstOf(cs, m, j)
    ensures cs[i].key != cs[j].key
  {
  }

  /** Every matching candidate shares its container with a first matching candidate at or before it. */
  lemma {:induction false} FirstOfKey(cs: seq<Cand>, i: nat)
    requires i < |cs| && cs[i].hit
    ensures exists j :: 0 <= j <= i && FirstOf(cs, {}, j) && cs[j].key == cs[i].key
    decreases i
  {
    if !FirstOf(cs, {}, i) {
      var j :| 0 <= j < i && cs[j].hit && cs[j].key == cs[i].key;
      FirstOfKey(cs, j);
    }
  }

  // ---------------------------------------------------------------------------
  // What MarkAll appends
  // ---------------------------------------------------------------------------

  /** The positions of `vs` at which MarkAll appends a new indicator, in order. */
  function MarkAllNew(inj: seq<Injected>, ci: nat, c: Container, vs: seq<nat>, vis: bool): seq<nat> {
    if vs == [] then []
    else
      var init := vs[..|vs| - 1];
      var prev := MarkAllNew(inj, ci, c, init, vis);
      if HasIndicator(MarkAll(inj, ci, c, init, vis), ci, c, vs[|vs| - 1]) then prev else prev + [|vs| - 1]
  }

  /**
   * MarkAll keeps `inj` and appends one new indicator per entry of MarkAllNew, on the visual at
   * that position, in increasing positions.
   */
  lemma {:induction false} MarkAllNewSpec(inj: seq<Injected>, ci: nat, c: Container, vs: seq<nat>, vis: bool)
    ensures var out := MarkAll(inj, ci, c, vs, vis); var pos := MarkAllNew(inj, ci, c, vs, vis);
      && |out| == |inj| + |pos| && out[..|inj|] == inj
      && (forall t :: 0 <= t < |pos| ==> pos[t] < |vs| && out[|inj| + t] == NewIndicator(ci, vs[pos[t]], vis))
      && (forall s, t :: 0 <= s < t < |pos| ==> pos[s] < pos[t])
    decreases |vs|
  {
    if vs != [] {
      var init := vs[..|vs| - 1];
      MarkAllNewSpec(inj, ci, c, init, vis);
      var prev := MarkAll(inj, ci, c, init, vis);
      var out := MarkAll(inj, ci, c, vs, vis);
      if !HasIndicator(prev, ci, c, vs[|vs| - 1]) {
        assert out == prev + [NewIndicator(ci, vs[|vs| - 1], vis)];
        assert out[..|prev|] == prev;
        assert out[..|inj|] == prev[..|inj|];
      }
    }
  }

  // ---------------------------------------------------------------------------
  // The choice branch
  // ---------------------------------------------------------------------------

  /** Where the choice branch puts an option's indicator. */
  function ChoiceVisual(c: Container, opt: nat): nat
    requires opt < |c|
  {
    VisualLabel(c, opt, ChoiceLabel(c[opt]))
  }

  /** An option node of the choice branch as a candidate; a node outside the container never matches. */
  function ChoiceCand(c: Container, tokens: seq<string>, opt: nat): Cand {
    if opt < |c| then Cand(LabelMatches(ChoiceLabel(c[opt]), tokens), ChoiceKey(c, opt), ChoiceVisual(c, opt))
    else Cand(false, None, 0)
  }

  function ChoiceCands(c: Container, tokens: seq<string>, nodes: seq<nat>): (r: seq<Cand>)
    ensures |r| == |nodes|
  {
    seq(|nodes|, i requires 0 <= i < |nodes| => ChoiceCand(c, tokens, nodes[i]))
  }

  /** What a choice candidate says about its option node. */
  lemma ChoiceCandAt(c: Container, tokens: seq<string>, nodes: seq<nat>, i: nat)
    requires i < |nodes|
    ensures var x := ChoiceCands(c, tokens, nodes)[i];
      && (x.hit <==> nodes[i] < |c| && LabelMatches(ChoiceLabel(c[nodes[i]]), tokens))
      && (x.hit ==> nodes[i] < |c| && x.key == ChoiceKey(c, nodes[i]) && x.visual == ChoiceVisual(c, nodes[i]))
  {
  }

  /** The walk over the first `n` option nodes agrees with PickFirsts over their candidates. */
  predicate WalkAgrees(c: Container, tokens: seq<string>, m: set<Option<nat>>, nodes: seq<nat>, n: nat)
    requires n <= |nodes|
  {
    var w := ChoiceWalk(c, tokens, m, nodes[..n]); var cs := ChoiceCands(c, tokens, nodes); var p := PickFirsts(cs, m, n);
    && w.marked == p.marked && |w.picks| == |p.at| == |w.visuals|
    && forall k :: 0 <= k < |p.at| ==> (p.at[k] < n && w.picks[k] == nodes[p.at[k]] && w.visuals[k] == cs[p.at[k]].visual)
  }

  /** The walk of the choice branch over the first `n` option nodes is PickFirsts over their candidates. */
  lemma {:induction false} ChoiceWalkPicks(c: Container, tokens: seq<string>, m: set<Option<nat>>, nodes: seq<nat>, n: nat)
    requires n <= |nodes|
    ensures WalkAgrees(c, tokens, m, nodes, n)
    decreases n
  {
    if n > 0 {
      ChoiceWalkPicks(c, tokens, m, nodes, n - 1);
      WalkAgreesStep(c, tokens, m, nodes, n);
    }
  }

  /** The walk's step for one option node, in terms of its candidate. */
  function WalkStep(w: Walk, x: Cand, opt: nat): Walk {
    if x.hit && x.key !in w.marked then Walk(w.marked + {x.key}, w.picks + [opt], w.visuals + [x.visual]) else w
  }

  lemma ChoiceWalkUnfold(c: Container, tokens: seq<string>, m: set<Option<nat>>, nodes: seq<nat>, n: nat)
    requires 0 < n <= |nodes|
    ensures ChoiceWalk(c, tokens, m, nodes[..n])
         == WalkStep(ChoiceWalk(c, tokens, m, nodes[..n - 1]), ChoiceCand(c, tokens, nodes[n - 1]), nodes[n - 1])
  {
    assert nodes[..n][..n - 1] == nodes[..n - 1];
    assert nodes[..n][n - 1] == nodes[n - 1];
    WalkOneCand(c, tokens, ChoiceWalk(c, tokens, m, nodes[..n - 1]), nodes[n - 1]);
  }

  lemma WalkOneCand(c: Container, tokens: seq<string>, w: Walk, opt: nat)
    ensures WalkOne(c, tokens, w, opt) == WalkStep(w, ChoiceCand(c, tokens, opt), opt)
  {
  }

  /** One option node more keeps the walk and PickFirsts in step. */
  lemma WalkAgreesStep(c: Container, tokens: seq<string>, m: set<Option<nat>>, nodes: seq<nat>, n: nat)
    requires 0 < n <= |nodes| && WalkAgrees(c, tokens, m, nodes, n - 1)
    ensures WalkAgrees(c, tokens, m, nodes, n)
  {
    var cs := ChoiceCands(c, tokens, nodes);
    ChoiceWalkUnfold(c, tokens, m, nodes, n);
    assert cs[n - 1] == ChoiceCand(c, tokens, nodes[n - 1]);
    PickStep(ChoiceWalk(c, tokens, m, nodes[..n - 1]), PickFirsts(cs, m, n - 1), cs, nodes, n);
  }

  /** WalkStep and PickFirsts take the same step on the n-th candidate. */
  lemma PickStep(w: Walk, p: Picked, cs: seq<Cand>, nodes: seq<nat>, n: nat)
    requires 0 < n <= |cs| == |nodes|
    requires w.marked == p.marked && |w.picks| == |p.at| == |w.visuals|
    requires forall k :: 0 <= k < |p.at| ==> (p.at[k] < n - 1 && w.picks[k] == nodes[p.at[k]] && w.visuals[k] == cs[p.at[k]].visual)
    ensures var w' := WalkStep(w, cs[n - 1], nodes[n - 1]);
      var p' := if cs[n - 1].hit && cs[n - 1].key !in p.marked then Picked(p.marked + {cs[n - 1].key}, p.at + [n - 1]) else p;
      && w'.marked == p'.marked && |w'.picks| == |p'.at| == |w'.visuals|
      && forall k :: 0 <= k < |p'.at| ==> (p'.at[k] < n && w'.picks[k] == nodes[p'.at[k]] && w'.visuals[k] == cs[p'.at[k]].visual)
  {
  }

  /** The choice branch is MarkAll over the visual labels of the picked option nodes. */
  lemma ChoiceRenderedPicks(ci: nat, c: Container, tokens: seq<string>, vis: bool, inj: seq<Injected>)
    ensures var nodes := QueryAll(c, 0, ChoiceSel); var w := ChoiceWalk(c, tokens, {}, nodes);
      var cs := ChoiceCands(c, tokens, nodes); var p := PickFirsts(cs, {}, |nodes|);
      && ChoiceRendered(ci, c, tokens, vis, inj) == MarkAll(inj, ci, c, w.visuals, vis)
      && |w.visuals| == |p.at|
      && forall k :: 0 <= k < |p.at| ==> (p.at[k] < |nodes| && w.visuals[k] == cs[p.at[k]].visual)
  {
    var nodes := QueryAll(c, 0, ChoiceSel);
    ChoiceWalkPicks(c, tokens, {}, nodes, |nodes|);
    assert nodes[..|nodes|] == nodes;
    MarkChoicesWalk(ci, c, tokens, vis, {}, inj, nodes);
  }

  /** Every matching candidate shares its container with a first one whose visual label is among `vs`, the picked visuals. */
  lemma PicksCover(cs: seq<Cand>, vs: seq<nat>, i: nat)
    requires i < |cs| && cs[i].hit
    requires |vs| == |PickFirsts(cs, {}, |cs|).at|
    requires forall k :: 0 <= k < |vs| ==> (PickFirsts(cs, {}, |cs|).at[k] < |cs| && vs[k] == cs[PickFirsts(cs, {}, |cs|).at[k]].visual)
    ensures exists j, k :: 0 <= j <= i && 0 <= k < |vs| && FirstOf(cs, {}, j) && cs[j].key == cs[i].key && vs[k] == cs[j].visual
  {
    var p := PickFirsts(cs, {}, |cs|);
    PickFirstsSpec(cs, {}, |cs|);
    FirstOfKey(cs, i);
    var j :| 0 <= j <= i && FirstOf(cs, {}, j) && cs[j].key == cs[i].key;
    var k :| 0 <= k < |p.at| && p.at[k] == j;
    assert vs[k] == cs[j].visual;
  }

  /** When every picked visual holds an indicator, so does the first matching candidate of every matching candidate's container. */
  lemma PicksCoverAll(cs: seq<Cand>, vs: seq<nat>, out: seq<Injected>, ci: nat, c: Container)
    requires |vs| == |PickFirsts(cs, {}, |cs|).at|
    requires forall k :: 0 <= k < |vs| ==> (PickFirsts(cs, {}, |cs|).at[k] < |cs| && vs[k] == cs[PickFirsts(cs, {}, |cs|).at[k]].visual)
    requires forall k :: 0 <= k < |vs| ==> HasIndicator(out, ci, c, vs[k])
    ensures forall i :: 0 <= i < |cs| && cs[i].hit ==>
      (exists j :: 0 <= j <= i && FirstOf(cs, {}, j) && cs[j].key == cs[i].key && HasIndicator(out, ci, c, cs[j].visual))
  {
    forall i | 0 <= i < |cs| && cs[i].hit
      ensures exists j :: 0 <= j <= i && FirstOf(cs, {}, j) && cs[j].key == cs[i].key && HasIndicator(out, ci, c, cs[j].visual)
    {
      PicksCover(cs, vs, i);
      var j, k :| 0 <= j <= i && 0 <= k < |vs| && FirstOf(cs, {}, j) && cs[j].key == cs[i].key && vs[k] == cs[j].visual;
      assert HasIndicator(out, ci, c, vs[k]);
    }
  }

  /** The choice branch, over candidates: the first matching candidate of every matching candidate's container is marked. */
  lemma ChoiceCovers(ci: nat, c: Container, tokens: seq<string>, vis: bool, inj: seq<Injected>)
    ensures var cs := ChoiceCands(c, tokens, QueryAll(c, 0, ChoiceSel)); var out := ChoiceRendered(ci, c, tokens, vis, inj);
      forall i :: 0 <= i < |cs| && cs[i].hit ==>
        (exists j :: 0 <= j <= i && FirstOf(cs, {}, j) && cs[j].key == cs[i].key && HasIndicator(out, ci, c, cs[j].visual))
  {
    var nodes := QueryAll(c, 0, ChoiceSel);
    var w := ChoiceWalk(c, tokens, {}, nodes);
    ChoiceRenderedPicks(ci, c, tokens, vis, inj);
    MarkAllMarks(inj, ci, c, w.visuals, vis);
    PicksCoverAll(ChoiceCands(c, tokens, nodes), w.visuals, ChoiceRendered(ci, c, tokens, vis, inj), ci, c);
  }

  /** ChoiceMarksMatching for the option node at position `i`. */
  lemma ChoiceMarksOne(ci: nat, c: Container, tokens: seq<string>, vis: bool, inj: seq<Injected>, i: nat)
    requires var nodes := QueryAll(c, 0, ChoiceSel); i < |nodes| && nodes[i] < |c| && LabelMatches(ChoiceLabel(c[nodes[i]]), tokens)
    ensures var nodes := QueryAll(c, 0, ChoiceSel); var cs := ChoiceCands(c, tokens, nodes);
      exists j :: (0 <= j <= i && FirstOf(cs, {}, j) && nodes[j] < |c| && ChoiceKey(c, nodes[j]) == ChoiceKey(c, nodes[i])
        && HasIndicator(ChoiceRendered(ci, c, tokens, vis, inj), ci, c, ChoiceVisual(c, nodes[j])))
  {
    var nodes := QueryAll(c, 0, ChoiceSel);
    ChoiceCovers(ci, c, tokens, vis, inj);
    ChoiceCandAt(c, tokens, nodes, i);
    ChoiceCandsHit(c, tokens, nodes);
    CoverOnNodes(ci, c, ChoiceCands(c, tokens, nodes), nodes, ChoiceRendered(ci, c, tokens, vis, inj), i);
  }

  /** ChoiceCovers for one candidate, read back on the option nodes. */
  lemma CoverOnNodes(ci: nat, c: Container, cs: seq<Cand>, nodes: seq<nat>, out: seq<Injected>, i: nat)
    requires |cs| == |nodes| && i < |nodes| && cs[i].hit
    requires forall i :: 0 <= i < |nodes| && cs[i].hit ==>
      (nodes[i] < |c| && cs[i].key == ChoiceKey(c, nodes[i]) && cs[i].visual == ChoiceVisual(c, nodes[i]))
    requires exists j :: 0 <= j <= i && FirstOf(cs, {}, j) && cs[j].key == cs[i].key && HasIndicator(out, ci, c, cs[j].visual)
    ensures exists j :: (0 <= j <= i && FirstOf(cs, {}, j) && nodes[j] < |c| && ChoiceKey(c, nodes[j]) == ChoiceKey(c, nodes[i])
      && HasIndicator(out, ci, c, ChoiceVisual(c, nodes[j])))
  {
    var j :| 0 <= j <= i && FirstOf(cs, {}, j) && cs[j].key == cs[i].key && HasIndicator(out, ci, c, cs[j].visual);
    assert nodes[j] < |c| && ChoiceKey(c, nodes[j]) == ChoiceKey(c, nodes[i]) && HasIndicator(out, ci, c, ChoiceVisual(c, nodes[j]));
  }

  /**
   * Every option node whose label matches has, on the visual label of the first matching option
   * node of its container, an indicator after the choice branch has run.
   */
  lemma ChoiceMarksMatching(ci: nat, c: Container, tokens: seq<string>, vis: bool, inj: seq<Injected>)
    ensures var nodes := QueryAll(c, 0, ChoiceSel); var cs := ChoiceCands(c, tokens, nodes);
      forall i :: 0 <= i < |nodes| && nodes[i] < |c| && LabelMatches(ChoiceLabel(c[nodes[i]]), tokens) ==>
        (exists j :: 0 <= j <= i && FirstOf(cs, {}, j) && nodes[j] < |c| && ChoiceKey(c, nodes[j]) == ChoiceKey(c, nodes[i])
           && HasIndicator(ChoiceRendered(ci, c, tokens, vis, inj), ci, c, ChoiceVisual(c, nodes[j])))
  {
    var nodes := QueryAll(c, 0, ChoiceSel);
    forall i | 0 <= i < |nodes| && nodes[i] < |c| && LabelMatches(ChoiceLabel(c[nodes[i]]), tokens)
      ensures var cs := ChoiceCands(c, tokens, nodes);
        exists j :: (0 <= j <= i && FirstOf(cs, {}, j) && nodes[j] < |c| && ChoiceKey(c, nodes[j]) == ChoiceKey(c, nodes[i])
          && HasIndicator(ChoiceRendered(ci, c, tokens, vis, inj), ci, c, ChoiceVisual(c, nodes[j])))
    {
      ChoiceMarksOne(ci, c, tokens, vis, inj, i);
    }
  }

  /** The positions `at[pos[t]]`, in order. */
  function Compose(at: seq<nat>, pos: seq<nat>): (r: seq<nat>)
    ensures |r| == |pos|
    ensures forall t :: 0 <= t < |pos| && pos[t] < |at| ==> r[t] == at[pos[t]]
  {
    seq(|pos|, t requires 0 <= t < |pos| => if pos[t] < |at| then at[pos[t]] else 0)
  }

  /** The option nodes whose visual labels get a new indicator, as positions in the option list, in the order added. */
  function ChoiceOwners(ci: nat, c: Container, tokens: seq<string>, vis: bool, inj: seq<Injected>): seq<nat> {
    var nodes := QueryAll(c, 0, ChoiceSel);
    Compose(PickFirsts(ChoiceCands(c, tokens, nodes), {}, |nodes|).at, MarkAllNew(inj, ci, c, ChoiceWalk(c, tokens, {}, nodes).visuals, vis))
  }

  /** MarkAll over the picked visuals appends, in increasing order, indicators on first matching candidates. */
  lemma PicksShape(inj: seq<Injected>, ci: nat, c: Container, cs: seq<Cand>, vs: seq<nat>, vis: bool)
    requires |vs| == |PickFirsts(cs, {}, |cs|).at|
    requires forall k :: 0 <= k < |vs| ==> (PickFirsts(cs, {}, |cs|).at[k] < |cs| && vs[k] == cs[PickFirsts(cs, {}, |cs|).at[k]].visual)
    ensures var out := MarkAll(inj, ci, c, vs, vis); var own := Compose(PickFirsts(cs, {}, |cs|).at, MarkAllNew(inj, ci, c, vs, vis));
      && |out| == |inj| + |own| && out[..|inj|] == inj
      && (forall t :: 0 <= t < |own| ==>
            (own[t] < |cs| && FirstOf(cs, {}, own[t]) && out[|inj| + t] == NewIndicator(ci, cs[own[t]].visual, vis)))
      && (forall s, t :: 0 <= s < t < |own| ==> own[s] < own[t])
  {
    PickFirstsSpec(cs, {}, |cs|);
    MarkAllNewSpec(inj, ci, c, vs, vis);
  }

  /** The owners, over candidates: increasing first matching candidates carrying the appended indicators' visuals. */
  lemma OwnersShape(ci: nat, c: Container, tokens: seq<string>, vis: bool, inj: seq<Injected>)
    ensures var out := ChoiceRendered(ci, c, tokens, vis, inj); var own := ChoiceOwners(ci, c, tokens, vis, inj);
      var cs := ChoiceCands(c, tokens, QueryAll(c, 0, ChoiceSel));
      && |out| == |inj| + |own| && out[..|inj|] == inj
      && (forall t :: 0 <= t < |own| ==>
            (own[t] < |cs| && FirstOf(cs, {}, own[t]) && out[|inj| + t] == NewIndicator(ci, cs[own[t]].visual, vis)))
      && (forall s, t :: 0 <= s < t < |own| ==> own[s] < own[t])
  {
    var nodes := QueryAll(c, 0, ChoiceSel);
    ChoiceRenderedPicks(ci, c, tokens, vis, inj);
    PicksShape(inj, ci, c, ChoiceCands(c, tokens, nodes), ChoiceWalk(c, tokens, {}, nodes).visuals, vis);
  }

  /**
   * The choice branch appends nothing but indicators, one on the visual label of each of its
   * owners. Every owner is the first matching option node of its container, and no two owners
   * share a container, so that no container gets two new indicators.
   */
  lemma ChoiceOnePerContainer(ci: nat, c: Container, tokens: seq<string>, vis: bool, inj: seq<Injected>)
    ensures var out := ChoiceRendered(ci, c, tokens, vis, inj); var own := ChoiceOwners(ci, c, tokens, vis, inj);
      var nodes := QueryAll(c, 0, ChoiceSel); var cs := ChoiceCands(c, tokens, nodes);
      && |out| == |inj| + |own| && out[..|inj|] == inj
      && (forall t :: 0 <= t < |own| ==>
            (own[t] < |nodes| && FirstOf(cs, {}, own[t]) && nodes[own[t]] < |c|
             && out[|inj| + t] == NewIndicator(ci, ChoiceVisual(c, nodes[own[t]]), vis)))
      && (forall s, t :: 0 <= s < t < |own| ==>
            (own[s] < own[t] && ChoiceKey(c, nodes[own[s]]) != ChoiceKey(c, nodes[own[t]])))
  {
    var nodes := QueryAll(c, 0, ChoiceSel);
    OwnersShape(ci, c, tokens, vis, inj);
    ChoiceCandsHit(c, tokens, nodes);
    OwnersOnNodes(ci, c, vis, ChoiceCands(c, tokens, nodes), nodes, ChoiceOwners(ci, c, tokens, vis, inj),
      inj, ChoiceRendered(ci, c, tokens, vis, inj));
  }

  /** Every matching choice candidate carries its option node's container and visual label. */
  lemma ChoiceCandsHit(c: Container, tokens: seq<string>, nodes: seq<nat>)
    ensures var cs := ChoiceCands(c, tokens, nodes);
      forall i :: 0 <= i < |nodes| && cs[i].hit ==>
        (nodes[i] < |c| && cs[i].key == ChoiceKey(c, nodes[i]) && cs[i].visual == ChoiceVisual(c, nodes[i]))
  {
    forall i | 0 <= i < |nodes| {
      ChoiceCandAt(c, tokens, nodes, i);
    }
  }

  /** The owners' facts over candidates, read back on their option nodes. */
  lemma OwnersOnNodes(ci: nat, c: Container, vis: bool, cs: seq<Cand>, nodes: seq<nat>, own: seq<nat>, inj: seq<Injected>, out: seq<Injected>)
    requires |cs| == |nodes|
    requires forall i :: 0 <= i < |nodes| && cs[i].hit ==>
      (nodes[i] < |c| && cs[i].key == ChoiceKey(c, nodes[i]) && cs[i].visual == ChoiceVisual(c, nodes[i]))
    requires |out| == |inj| + |own|
    requires forall t :: 0 <= t < |own| ==>
      (own[t] < |cs| && FirstOf(cs, {}, own[t]) && out[|inj| + t] == NewIndicator(ci, cs[own[t]].visual, vis))
    requires forall s, t :: 0 <= s < t < |own| ==> own[s] < own[t]
    ensures forall t :: 0 <= t < |own| ==>
      (own[t] < |nodes| && FirstOf(cs, {}, own[t]) && nodes[own[t]] < |c|
       && out[|inj| + t] == NewIndicator(ci, ChoiceVisual(c, nodes[own[t]]), vis))
    ensures forall s, t :: 0 <= s < t < |own| ==>
      (own[s] < own[t] && ChoiceKey(c, nodes[own[s]]) != ChoiceKey(c, nodes[own[t]]))
  {
    forall s, t | 0 <= s < t < |own|
      ensures ChoiceKey(c, nodes[own[s]]) != ChoiceKey(c, nodes[own[t]])
    {
      FirstOfDistinct(cs, {}, own[s], own[t]);
    }
  }

  // ---------------------------------------------------------------------------
  // The list branch
  // ---------------------------------------------------------------------------

  /** Where the list branch puts an option's indicator. */
  function ListVisual(c: Container, opt: nat): nat
    requires opt < |c|
  {
    VisualLabel(c, opt, ListLabel(c[opt]))
  }

  /** A list option as a candidate; the list branch ignores containers. */
  function ListCand(c: Container, tokens: seq<string>, opt: nat): Cand {
    if opt < |c| then Cand(LabelMatches(ListLabel(c[opt]), tokens), None, ListVisual(c, opt)) else Cand(false, None, 0)
  }

  function ListCands(c: Container, tokens: seq<string>, nodes: seq<nat>): (r: seq<Cand>)
    ensures |r| == |nodes|
  {
    seq(|nodes|, i requires 0 <= i < |nodes| => ListCand(c, tokens, nodes[i]))
  }

  /** What a list candidate says about its option element. */
  lemma ListCandAt(c: Container, tokens: seq<string>, nodes: seq<nat>, i: nat)
    requires i < |nodes|
    ensures var x := ListCands(c, tokens, nodes)[i];
      && (x.hit <==> nodes[i] < |c| && LabelMatches(ListLabel(c[nodes[i]]), tokens))
      && (x.hit ==> nodes[i] < |c| && x.visual == ListVisual(c, nodes[i]))
  {
  }

  /** The visual labels of the matching candidates among the first `n`, in order. */
  function HitVisuals(cs: seq<Cand>, n: nat): seq<nat>
    requires n <= |cs|
  {
    if n == 0 then [] else HitVisuals(cs, n - 1) + (if cs[n - 1].hit then [cs[n - 1].visual] else [])
  }

  /** The positions of the matching candidates among the first `n`, in order. */
  function HitAt(cs: seq<Cand>, n: nat): seq<nat>
    requires n <= |cs|
  {
    if n == 0 then [] else HitAt(cs, n - 1) + (if cs[n - 1].hit then [n - 1] else [])
  }

  /**
   * HitAt lists, in increasing order, exactly the matching candidates among the first `n`, and
   * HitVisuals their visual labels.
   */
  lemma {:induction false} HitAtSpec(cs: seq<Cand>, n: nat)
    requires n <= |cs|
    ensures var at := HitAt(cs, n); var vs := HitVisuals(cs, n);
      && |vs| == |at|
      && (forall k :: 0 <= k < |at| ==> (at[k] < n && cs[at[k]].hit && vs[k] == cs[at[k]].visual))
      && (forall s, t :: 0 <= s < t < |at| ==> at[s] < at[t])
      && (forall i :: 0 <= i < n && cs[i].hit ==> i in at)
    decreases n
  {
    if n > 0 {
      HitAtSpec(cs, n - 1);
    }
  }

  /** The matching candidates whose visual labels get a new indicator, in the order added. */
  function HitOwners(inj: seq<Injected>, ci: nat, c: Container, cs: seq<Cand>, vis: bool): seq<nat> {
    Compose(HitAt(cs, |cs|), MarkAllNew(inj, ci, c, HitVisuals(cs, |cs|), vis))
  }

  /**
   * MarkAll over the matching candidates' visual labels marks every one of them, and appends, in
   * increasing order of candidates, one indicator on the visual label of each of its owners.
   */
  lemma HitShape(inj: seq<Injected>, ci: nat, c: Container, cs: seq<Cand>, vis: bool, out: seq<Injected>)
    requires out == MarkAll(inj, ci, c, HitVisuals(cs, |cs|), vis)
    ensures var own := HitOwners(inj, ci, c, cs, vis);
      && |out| == |inj| + |own| && out[..|inj|] == inj
      && (forall t :: 0 <= t < |own| ==> (own[t] < |cs| && cs[own[t]].hit && out[|inj| + t] == NewIndicator(ci, cs[own[t]].visual, vis)))
      && (forall s, t :: 0 <= s < t < |own| ==> own[s] < own[t])
    ensures forall i :: 0 <= i < |cs| && cs[i].hit ==> HasIndicator(out, ci, c, cs[i].visual)
  {
    var vs := HitVisuals(cs, |cs|);
    var at := HitAt(cs, |cs|);
    HitAtSpec(cs, |cs|);
    MarkAllMarks(inj, ci, c, vs, vis);
    MarkAllNewSpec(inj, ci, c, vs, vis);
    forall i | 0 <= i < |cs| && cs[i].hit
      ensures HasIndicator(out, ci, c, cs[i].visual)
    {
      var k :| 0 <= k < |at| && at[k] == i;
      assert HasIndicator(out, ci, c, vs[k]);
    }
  }

  /** One list option, in terms of its candidate. */
  lemma ListOptionCand(ci: nat, c: Container, tokens: seq<string>, vis: bool, inj: seq<Injected>, opt: nat)
    ensures var x := ListCand(c, tokens, opt);
      MarkListOption(ci, c, tokens, vis, inj, opt) == if x.hit then MarkVisual(inj, ci, c, x.visual, vis) else inj
  {
  }

  /** The forEach over the first `n` list options is MarkAll over the matching options' visual labels. */
  lemma {:induction false} MarkListOptionsAll(ci: nat, c: Container, tokens: seq<string>, vis: bool, inj: seq<Injected>, nodes: seq<nat>, n: nat)
    requires n <= |nodes|
    ensures MarkListOptions(ci, c, tokens, vis, inj, nodes[..n]) == MarkAll(inj, ci, c, HitVisuals(ListCands(c, tokens, nodes), n), vis)
    decreases n
  {
    if n > 0 {
      var cs := ListCands(c, tokens, nodes);
      var prev := MarkListOptions(ci, c, tokens, vis, inj, nodes[..n - 1]);
      MarkListOptionsAll(ci, c, tokens, vis, inj, nodes, n - 1);
      MarkListOptionsStep(ci, c, tokens, vis, inj, nodes, n - 1);
      ListOptionCand(ci, c, tokens, vis, prev, nodes[n - 1]);
      var x := cs[n - 1];
      assert x == ListCand(c, tokens, nodes[n - 1]);
      var vs := HitVisuals(cs, n);
      var pv := HitVisuals(cs, n - 1);
      if x.hit {
        assert vs == pv + [x.visual];
        assert vs[..|vs| - 1] == pv;
      } else {
        assert vs == pv;
      }
    }
  }

  /** The list options whose visual labels get a new indicator, as positions in the option list, in the order added. */
  function ListOwners(ci: nat, c: Container, tokens: seq<string>, vis: bool, inj: seq<Injected>, nodes: seq<nat>): seq<nat> {
    HitOwners(inj, ci, c, ListCands(c, tokens, nodes), vis)
  }

  /** HitShape for the forEach over the list options. */
  lemma ListShape(ci: nat, c: Container, tokens: seq<string>, vis: bool, inj: seq<Injected>, nodes: seq<nat>)
    ensures var out := MarkListOptions(ci, c, tokens, vis, inj, nodes); var cs := ListCands(c, tokens, nodes);
      var own := ListOwners(ci, c, tokens, vis, inj, nodes);
      && |out| == |inj| + |own| && out[..|inj|] == inj
      && (forall t :: 0 <= t < |own| ==> (own[t] < |cs| && cs[own[t]].hit && out[|inj| + t] == NewIndicator(ci, cs[own[t]].visual, vis)))
      && (forall s, t :: 0 <= s < t < |own| ==> own[s] < own[t])
      && (forall i :: 0 <= i < |cs| && cs[i].hit ==> HasIndicator(out, ci, c, cs[i].visual))
  {
    MarkListOptionsAll(ci, c, tokens, vis, inj, nodes, |nodes|);
    assert nodes[..|nodes|] == nodes;
    HitShape(inj, ci, c, ListCands(c, tokens, nodes), vis, MarkListOptions(ci, c, tokens, vis, inj, nodes));
  }

  /** The list branch appends the answer div, when the list has a parent, after the marked options. */
  lemma ListRenderedMarked(ci: nat, c: Container, tokens: seq<string>, vis: bool, inj: seq<Injected>, text: string)
    requires Query(c, 0, ListContainerSel).Some?
    ensures var l := Query(c, 0, ListContainerSel).value;
      var marked := MarkListOptions(ci, c, tokens, vis, inj, QueryAll(c, l, ListItemSel));
      var out := ListRendered(ci, c, tokens, vis, inj, text);
      |out| == |marked| + (if Parent(c, l).Some? then 1 else 0) && out[..|marked|] == marked
  {
  }

  /** The list branch marks the visual label of every option of the first list container whose label matches. */
  lemma ListMarksEvery(ci: nat, c: Container, tokens: seq<string>, vis: bool, inj: seq<Injected>, text: string)
    requires Query(c, 0, ListContainerSel).Some?
    ensures var nodes := QueryAll(c, Query(c, 0, ListContainerSel).value, ListItemSel);
      var out := ListRendered(ci, c, tokens, vis, inj, text);
      forall i :: 0 <= i < |nodes| && nodes[i] < |c| && LabelMatches(ListLabel(c[nodes[i]]), tokens) ==>
        HasIndicator(out, ci, c, ListVisual(c, nodes[i]))
  {
    var l := Query(c, 0, ListContainerSel).value;
    var nodes := QueryAll(c, l, ListItemSel);
    var cs := ListCands(c, tokens, nodes);
    var marked := MarkListOptions(ci, c, tokens, vis, inj, nodes);
    var out := ListRendered(ci, c, tokens, vis, inj, text);
    ListShape(ci, c, tokens, vis, inj, nodes);
    ListRenderedMarked(ci, c, tokens, vis, inj, text);
    forall i | 0 <= i < |nodes| && nodes[i] < |c| && LabelMatches(ListLabel(c[nodes[i]]), tokens)
      ensures HasIndicator(out, ci, c, ListVisual(c, nodes[i]))
    {
      ListCandAt(c, tokens, nodes, i);
      HasIndicatorGrows(marked, out, ci, c, cs[i].visual);
    }
  }

  /**
   * The list branch keeps the nodes injected before it and appends one indicator per owner, on
   * the owner's visual label, owners being matching options in increasing order; after them
   * comes the answer div when the list has a parent.
   */
  lemma ListMarksOnly(ci: nat, c: Container, tokens: seq<string>, vis: bool, inj: seq<Injected>, text: string)
    requires Query(c, 0, ListContainerSel).Some?
    ensures var l := Query(c, 0, ListContainerSel).value; var nodes := QueryAll(c, l, ListItemSel);
      var out := ListRendered(ci, c, tokens, vis, inj, text); var own := ListOwners(ci, c, tokens, vis, inj, nodes);
      && |out| == |inj| + |own| + (if Parent(c, l).Some? then 1 else 0) && out[..|inj|] == inj
      && (forall t :: 0 <= t < |own| ==>
            (own[t] < |nodes| && nodes[own[t]] < |c| && LabelMatches(ListLabel(c[nodes[own[t]]]), tokens)
             && out[|inj| + t] == NewIndicator(ci, ListVisual(c, nodes[own[t]]), vis)))
      && (forall s, t :: 0 <= s < t < |own| ==> own[s] < own[t])
  {
    var l := Query(c, 0, ListContainerSel).value;
    var nodes := QueryAll(c, l, ListItemSel);
    var cs := ListCands(c, tokens, nodes);
    var marked := MarkListOptions(ci, c, tokens, vis, inj, nodes);
    var out := ListRendered(ci, c, tokens, vis, inj, text);
    var own := ListOwners(ci, c, tokens, vis, inj, nodes);
    ListShape(ci, c, tokens, vis, inj, nodes);
    ListRenderedMarked(ci, c, tokens, vis, inj, text);
    forall t | 0 <= t < |own|
      ensures nodes[own[t]] < |c| && LabelMatches(ListLabel(c[nodes[own[t]]]), tokens)
      ensures out[|inj| + t] == NewIndicator(ci, ListVisual(c, nodes[own[t]]), vis)
    {
      ListCandAt(c, tokens, nodes, own[t]);
      assert out[|inj| + t] == marked[|inj| + t];
    }
    assert out[..|inj|] == marked[..|inj|];
  }
}
