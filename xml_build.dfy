// The event-driven tree builder of omp/xml.c (handle_start_element,
// handle_text, handle_end_element over context_data_t) and a value-level
// reading of the same events that it is proved to agree with.

module XmlBuild {
  import opened Options
  import opened Xml
  import opened XmlHeap

  /** What the tokenizer reports to the handlers. */
  datatype Event =
    | Start(name: string, attributeNames: seq<string>, attributeValues: seq<string>)
    | Text(chunk: string)
    | End(name: string)

  /** The entity handle_start_element makes for a start event. */
  function Opened(name: string, names: seq<string>, values: seq<string>): (e: Entity)
    ensures e.name == name && e.text == "" && e.children == []
    ensures e.attributes == Xml.AddAttributes(None, names, values)
  {
    MakeEntity(Some(name), None).(attributes := Xml.AddAttributes(None, names, values))
  }

  // ---------------------------------------------------------------------
  // The heap transitions of the three handlers

  /** The heap after a start event: a fresh record, appended to the open parent if any. */
  function StartNodes(nodes: seq<Node>, stack: seq<nat>, e: Entity): (r: seq<Node>)
    requires forall k :: 0 <= k < |stack| ==> stack[k] < |nodes|
    ensures |r| == |nodes| + 1 && r[|nodes|] == Record(e)
  {
    (if stack == [] then nodes else AppendChild(nodes, stack[|stack| - 1], |nodes|)) + [Record(e)]
  }

  /** The heap after a text event: the chunk is concatenated onto the entity's text. */
  function TextNodes(nodes: seq<Node>, h: nat, chunk: string): (r: seq<Node>)
    requires h < |nodes|
    ensures |r| == |nodes| && r[h].text == nodes[h].text + chunk
  {
    nodes[h := nodes[h].(text := nodes[h].text + chunk)]
  }

  /**
   * context_data_t: the open entities (`current`, innermost LAST here where
   * the C list keeps it first), the first entity opened and `done`.
   */
  class Context {
    const heap: EntityHeap
    var first: Option<nat>
    var stack: seq<nat>
    var done: bool

    ghost predicate Valid()
      reads this, heap
    {
      heap.Valid()
      && (forall k :: 0 <= k < |stack| ==> stack[k] < |heap.nodes|)
      && (first.Some? ==> first.value < |heap.nodes|)
      && (stack != [] ==> first.Some?)
    }

    /**
     * `current == first`: the list cell on top is the one pushed for the first
     * entity. That entity is pushed once, so this is the stack holding it alone.
     */
    predicate AtRoot()
      reads this
    {
      first.Some? && stack == [first.value]
    }

    constructor ()
      ensures Valid() && fresh(heap)
      ensures heap.nodes == [] && stack == [] && first.None? && !done
    {
      heap := new EntityHeap();
      first := None;
      stack := [];
      done := false;
    }

    /**
     * handle_start_element: the new entity becomes the last child of the
     * innermost open entity, or is detached when none is open; the first
     * entity ever opened is remembered; then the entity is pushed.
     */
    method HandleStart(name: string, names: seq<string>, values: seq<string>)
      requires Valid()
      modifies this, heap
      ensures Valid()
      ensures heap.nodes == StartNodes(old(heap.nodes), old(stack), Opened(name, names, values))
      ensures stack == old(stack) + [|old(heap.nodes)|]
      ensures first == (if old(first).None? then Some(|old(heap.nodes)|) else old(first))
      ensures done == old(done)
    {
      var h;
      if stack != [] {
        h := heap.AddEntity(Some(stack[|stack| - 1]), Some(name), None);
      } else {
        h := heap.AddEntity(None, Some(name), None);
      }
      heap.AddAttributes(h, names, values);
      if first.None? {
        first := Some(h);
      }
      stack := stack + [h];
    }

    /** handle_text: concatenate onto the innermost open entity's text. */
    method HandleText(chunk: string)
      requires Valid() && stack != []
      modifies heap
      ensures Valid()
      ensures heap.nodes == TextNodes(old(heap.nodes), stack[|stack| - 1], chunk)
    {
      var h := stack[|stack| - 1];
      heap.nodes := heap.nodes[h := heap.nodes[h].(text := heap.nodes[h].text + chunk)];
    }

    /**
     * handle_end_element: popping the first entity sets `done`, and its name
     * must then be the closing name (the assertions at the top of the handler).
     */
    method HandleEnd(name: string)
      requires Valid() && stack != []
      requires AtRoot() ==> name == heap.nodes[first.value].name
      modifies this
      ensures Valid() && heap.nodes == old(heap.nodes) && first == old(first)
      ensures done == (old(done) || old(AtRoot()))
      ensures stack == old(stack)[..|old(stack)| - 1]
    {
      if AtRoot() {
        done := true;
      }
      stack := stack[..|stack| - 1];
    }
  }

  // ---------------------------------------------------------------------
  // The reference: the same events read as values

  /**
   * The open elements as values, innermost last, and the first top-level
   * element once it has closed. A child is attached to its parent when it
   * closes, where the heap builder attaches it when it opens.
   */
  datatype Reading = Reading(open: seq<Entity>, root: Option<Entity>)

  /**
   * Whether the tokenizer can deliver the event now: text and closing tags
   * only inside an open element, and a closing tag only for the innermost
   * one. GMarkup reports anything else as a parse error itself.
   */
  predicate Accepts(r: Reading, ev: Event)
  {
    match ev
    case Start(_, _, _) => true
    case Text(_) => r.open != []
    case End(n) => r.open != [] && r.open[|r.open| - 1].name == n
  }

  function Apply(r: Reading, ev: Event): Reading
    requires Accepts(r, ev)
  {
    match ev
    case Start(n, names, values) => r.(open := r.open + [Opened(n, names, values)])
    case Text(t) =>
      var top := r.open[|r.open| - 1];
      r.(open := r.open[..|r.open| - 1] + [top.(text := top.text + t)])
    case End(_) =>
      var e := r.open[|r.open| - 1];
      var rest := r.open[..|r.open| - 1];
      if rest == [] then Reading([], if r.root.None? then Some(e) else r.root)
      else
        var parent := rest[|rest| - 1];
        Reading(rest[..|rest| - 1] + [parent.(children := parent.children + [e])], r.root)
  }

  /** The reading after a list of events, or None once one cannot be delivered. */
  function ApplyAll(r: Reading, evs: seq<Event>): Option<Reading>
    decreases |evs|
  {
    if evs == [] then Some(r)
    else match ApplyAll(r, evs[..|evs| - 1])
      case None => None
      case Some(s) => if Accepts(s, evs[|evs| - 1]) then Some(Apply(s, evs[|evs| - 1])) else None
  }

  /** Once an event cannot be delivered, no longer list of events can be. */
  lemma {:induction false} ApplyAllStuck(r: Reading, evs: seq<Event>, i: nat)
    requires i <= |evs| && ApplyAll(r, evs[..i]).None?
    ensures ApplyAll(r, evs).None?
    decreases |evs| - i
  {
    if i < |evs| {
      assert evs[..i + 1][..i] == evs[..i];
      ApplyAllStuck(r, evs, i + 1);
    } else {
      assert evs[..i] == evs;
    }
  }

  /** The root, once closed, is never changed by later events. */
  lemma {:induction false} ApplyAllKeepsRoot(r: Reading, evs: seq<Event>)
    requires r.root.Some? && ApplyAll(r, evs).Some?
    ensures ApplyAll(r, evs).value.root == r.root
    decreases |evs|
  {
    if evs != [] {
      ApplyAllKeepsRoot(r, evs[..|evs| - 1]);
    }
  }

  // ---------------------------------------------------------------------
  // The heap builder agrees with the reading

  /** The children of the open entity at level `k` that have already closed. */
  ghost function Closed(nodes: seq<Node>, stack: seq<nat>, k: nat): seq<nat>
    requires k < |stack| && stack[k] < |nodes|
  {
    var cs := nodes[stack[k]].children;
    if k + 1 < |stack| && cs != [] then cs[..|cs| - 1] else cs
  }

  /** The handles of level `k`'s closed children all lie below this. */
  ghost function Bound(nodes: seq<Node>, stack: seq<nat>, k: nat): nat
    requires k < |stack|
  {
    if k + 1 < |stack| then stack[k + 1] else |nodes|
  }

  /** The handle the heap builder has at level `k` of its open stack, and what is below it. */
  ghost predicate Level(nodes: seq<Node>, stack: seq<nat>, k: nat, e: Entity)
    requires WellFormed(nodes) && k < |stack| && forall j :: 0 <= j < |stack| ==> stack[j] < |nodes|
  {
    var n := nodes[stack[k]];
    n.name == e.name && n.text == e.text && n.attributes == e.attributes
    && (k + 1 < |stack| ==> n.children != [] && n.children[|n.children| - 1] == stack[k + 1])
    && (forall c :: 0 <= c < |Closed(nodes, stack, k)| ==> Below(nodes, Closed(nodes, stack, k)[c], Bound(nodes, stack, k)))
    && Forest(nodes, Closed(nodes, stack, k), stack[k]) == e.children
  }

  /** What a level says about its closed children, spelled out for the frame lemmas. */
  lemma LevelClosed(nodes: seq<Node>, stack: seq<nat>, k: nat, e: Entity)
    requires WellFormed(nodes) && k < |stack| && forall j :: 0 <= j < |stack| ==> stack[j] < |nodes|
    requires Level(nodes, stack, k, e)
    ensures forall c :: 0 <= c < |Closed(nodes, stack, k)| ==>
              stack[k] < Closed(nodes, stack, k)[c] < |nodes| && Below(nodes, Closed(nodes, stack, k)[c], Bound(nodes, stack, k))
  {
    var cs := nodes[stack[k]].children;
    forall c | 0 <= c < |Closed(nodes, stack, k)| ensures stack[k] < Closed(nodes, stack, k)[c] < |nodes| {
      assert Closed(nodes, stack, k)[c] == cs[c];
    }
  }

  /**
   * A level survives a change of heap and stack that keeps its handle, its
   * closed children and their bound, and every record between its handle and
   * that bound.
   */
  lemma LevelFrame(nodes: seq<Node>, stack: seq<nat>, nodes': seq<Node>, stack': seq<nat>, k: nat, e: Entity, e': Entity)
    requires WellFormed(nodes) && k < |stack| && forall j :: 0 <= j < |stack| ==> stack[j] < |nodes|
    requires WellFormed(nodes') && k < |stack'| && forall j :: 0 <= j < |stack'| ==> stack'[j] < |nodes'|
    requires Level(nodes, stack, k, e) && stack'[k] == stack[k]
    requires Closed(nodes', stack', k) == Closed(nodes, stack, k) && Bound(nodes', stack', k) == Bound(nodes, stack, k)
    requires Bound(nodes, stack, k) <= |nodes| && Bound(nodes, stack, k) <= |nodes'|
    requires forall i :: stack[k] < i < Bound(nodes, stack, k) ==> nodes'[i] == nodes[i]
    requires var n := nodes'[stack[k]]; n.name == e'.name && n.text == e'.text && n.attributes == e'.attributes
    requires e'.children == e.children
    requires k + 1 < |stack'| ==> nodes'[stack[k]].children != [] && nodes'[stack[k]].children[|nodes'[stack[k]].children| - 1] == stack'[k + 1]
    ensures Level(nodes', stack', k, e')
  {
    LevelClosed(nodes, stack, k, e);
    ForestFrame(nodes, nodes', Closed(nodes, stack, k), stack[k], Bound(nodes, stack, k));
  }

  /**
   * The builder's state (heap, stack, first, done) against the reading:
   * level by level, each open entity holds the open element's fields and
   * its closed children's trees, with the next open entity as its last
   * child; once the root has closed, its tree is the reading's root and
   * lies below `rootBound`, under every entity opened since.
   */
  ghost predicate Corresponds(nodes: seq<Node>, stack: seq<nat>, first: Option<nat>, done: bool, r: Reading, rootBound: nat)
  {
    WellFormed(nodes)
    && |stack| == |r.open|
    && (forall k :: 0 <= k < |stack| ==> stack[k] < |nodes|)
    && (forall k, l :: 0 <= k < l < |stack| ==> stack[k] < stack[l])
    && (forall k :: 0 <= k < |stack| ==> Level(nodes, stack, k, r.open[k]))
    && (done <==> r.root.Some?)
    && (r.root.None? ==> (first.Some? <==> stack != []) && (stack != [] ==> stack[0] == first.value))
    && (r.root.Some? ==>
          first.Some? && first.value < rootBound <= |nodes|
          && Below(nodes, first.value, rootBound) && Tree(nodes, first.value) == r.root.value
          && forall k :: 0 <= k < |stack| ==> rootBound <= stack[k])
  }

  lemma InitialCorresponds()
    ensures Corresponds([], [], None, false, Reading([], None), 0)
  {
  }

  /** A text event keeps the correspondence. */
  lemma {:induction false} TextCorresponds(nodes: seq<Node>, stack: seq<nat>, first: Option<nat>, done: bool, r: Reading, rootBound: nat, t: string)
    requires Corresponds(nodes, stack, first, done, r, rootBound) && stack != []
    ensures Accepts(r, Text(t))
    ensures Corresponds(TextNodes(nodes, stack[|stack| - 1], t), stack, first, done, Apply(r, Text(t)), rootBound)
  {
    var top := stack[|stack| - 1];
    var nodes' := TextNodes(nodes, top, t);
    var r' := Apply(r, Text(t));
    assert WellFormed(nodes');
    forall k | 0 <= k < |stack| ensures Level(nodes', stack, k, r'.open[k]) {
      assert Level(nodes, stack, k, r.open[k]);
      if k + 1 < |stack| {
        assert stack[k + 1] <= top;
      }
      LevelFrame(nodes, stack, nodes', stack, k, r.open[k], r'.open[k]);
    }
    if r.root.Some? {
      TreeFrame(nodes, nodes', first.value, rootBound);
    }
  }

  /** The heap after a start event stays well formed and changes only the old top's child list. */
  lemma StartNodesShape(nodes: seq<Node>, stack: seq<nat>, e: Entity)
    requires WellFormed(nodes) && forall k :: 0 <= k < |stack| ==> stack[k] < |nodes|
    ensures var nodes' := StartNodes(nodes, stack, e);
      WellFormed(nodes')
      && (forall i :: 0 <= i < |nodes| && (stack == [] || i != stack[|stack| - 1]) ==> nodes'[i] == nodes[i])
      && (stack != [] ==> nodes'[stack[|stack| - 1]] == nodes[stack[|stack| - 1]].(children := nodes[stack[|stack| - 1]].children + [|nodes|]))
  {
    var nodes' := StartNodes(nodes, stack, e);
    forall i, c | 0 <= i < |nodes'| && 0 <= c < |nodes'[i].children|
      ensures i < nodes'[i].children[c] < |nodes'|
    {
      if i < |nodes| && stack != [] && i == stack[|stack| - 1] && c == |nodes[i].children| {
        assert nodes'[i].children[c] == |nodes|;
      }
    }
  }

  /** After a start event every level of the new stack matches the new reading. */
  lemma StartLevels(nodes: seq<Node>, stack: seq<nat>, r: Reading, e: Entity)
    requires WellFormed(nodes) && |stack| == |r.open| && e.children == []
    requires forall k :: 0 <= k < |stack| ==> stack[k] < |nodes|
    requires forall k, l :: 0 <= k < l < |stack| ==> stack[k] < stack[l]
    requires forall k :: 0 <= k < |stack| ==> Level(nodes, stack, k, r.open[k])
    requires WellFormed(StartNodes(nodes, stack, e))
    requires forall i :: 0 <= i < |nodes| && (stack == [] || i != stack[|stack| - 1]) ==> StartNodes(nodes, stack, e)[i] == nodes[i]
    requires stack != [] ==> StartNodes(nodes, stack, e)[stack[|stack| - 1]] == nodes[stack[|stack| - 1]].(children := nodes[stack[|stack| - 1]].children + [|nodes|])
    ensures forall k :: 0 <= k < |stack| + 1 ==> Level(StartNodes(nodes, stack, e), stack + [|nodes|], k, (r.open + [e])[k])
  {
    var nodes' := StartNodes(nodes, stack, e);
    var stack' := stack + [|nodes|];
    forall k | 0 <= k < |stack'| ensures Level(nodes', stack', k, (r.open + [e])[k]) {
      if k < |stack| {
        assert Level(nodes, stack, k, r.open[k]);
        if k + 1 < |stack| {
          assert stack[k + 1] <= stack[|stack| - 1];
        }
        StartLevel(nodes, stack, nodes', e, k, r.open[k]);
        assert (r.open + [e])[k] == r.open[k];
      } else {
        assert Closed(nodes', stack', k) == [];
      }
    }
  }

  /** One of the old levels after a start event. */
  lemma StartLevel(nodes: seq<Node>, stack: seq<nat>, nodes': seq<Node>, e: Entity, k: nat, ek: Entity)
    requires WellFormed(nodes) && k < |stack| && forall j :: 0 <= j < |stack| ==> stack[j] < |nodes|
    requires Level(nodes, stack, k, ek)
    requires k + 1 < |stack| ==> stack[k] < stack[k + 1] <= stack[|stack| - 1]
    requires nodes' == StartNodes(nodes, stack, e) && WellFormed(nodes')
    requires forall i :: 0 <= i < |nodes| && i != stack[|stack| - 1] ==> nodes'[i] == nodes[i]
    requires nodes'[stack[|stack| - 1]] == nodes[stack[|stack| - 1]].(children := nodes[stack[|stack| - 1]].children + [|nodes|])
    ensures Level(nodes', stack + [|nodes|], k, ek)
  {
    var stack' := stack + [|nodes|];
    StartClosedBound(nodes, stack, nodes', k);
    LevelFrame(nodes, stack, nodes', stack', k, ek, ek);
  }

  /** A start event leaves each old level's closed children and their bound as they were. */
  lemma StartClosedBound(nodes: seq<Node>, stack: seq<nat>, nodes': seq<Node>, k: nat)
    requires k < |stack| && forall j :: 0 <= j < |stack| ==> stack[j] < |nodes|
    requires k + 1 < |stack| ==> stack[k] < stack[|stack| - 1]
    requires |nodes'| == |nodes| + 1
    requires forall i :: 0 <= i < |nodes| && i != stack[|stack| - 1] ==> nodes'[i] == nodes[i]
    requires nodes'[stack[|stack| - 1]] == nodes[stack[|stack| - 1]].(children := nodes[stack[|stack| - 1]].children + [|nodes|])
    ensures Closed(nodes', stack + [|nodes|], k) == Closed(nodes, stack, k)
    ensures Bound(nodes', stack + [|nodes|], k) == Bound(nodes, stack, k)
  {
    var stack' := stack + [|nodes|];
    assert stack'[k] == stack[k];
    if k + 1 < |stack| {
      assert stack'[k + 1] == stack[k + 1];
      assert nodes'[stack[k]] == nodes[stack[k]];
    } else {
      var cs := nodes[stack[k]].children;
      assert nodes'[stack[k]].children == cs + [|nodes|];
      assert (cs + [|nodes|])[..|cs|] == cs;
    }
  }

  /** A start event keeps the correspondence. */
  lemma {:induction false} StartCorresponds(nodes: seq<Node>, stack: seq<nat>, first: Option<nat>, done: bool, r: Reading, rootBound: nat,
                                            name: string, names: seq<string>, values: seq<string>)
    requires Corresponds(nodes, stack, first, done, r, rootBound)
    ensures Corresponds(StartNodes(nodes, stack, Opened(name, names, values)), stack + [|nodes|],
                        if first.None? then Some(|nodes|) else first, done,
                        Apply(r, Start(name, names, values)), rootBound)
  {
    var e := Opened(name, names, values);
    var nodes' := StartNodes(nodes, stack, e);
    StartNodesShape(nodes, stack, e);
    StartLevels(nodes, stack, r, e);
    assert Apply(r, Start(name, names, values)).open == r.open + [e];
    if r.root.Some? {
      TreeFrame(nodes, nodes', first.value, rootBound);
    }
  }

  /** The innermost open entity's tree is the innermost open element. */
  lemma TopTree(nodes: seq<Node>, stack: seq<nat>, r: Reading)
    requires WellFormed(nodes) && |stack| == |r.open| && stack != []
    requires forall k :: 0 <= k < |stack| ==> stack[k] < |nodes|
    requires Level(nodes, stack, |stack| - 1, r.open[|stack| - 1])
    ensures Tree(nodes, stack[|stack| - 1]) == r.open[|stack| - 1]
    ensures Below(nodes, stack[|stack| - 1], |nodes|)
  {
    var top := |stack| - 1;
    assert Closed(nodes, stack, top) == nodes[stack[top]].children;
    BelowSize(nodes, stack[top]);
  }

  /** When the innermost entity closes, its parent's level takes it as its last closed child. */
  lemma EndParentLevel(nodes: seq<Node>, stack: seq<nat>, p: Entity, e: Entity, closed: seq<nat>)
    requires WellFormed(nodes) && |stack| >= 2
    requires forall k :: 0 <= k < |stack| ==> stack[k] < |nodes|
    requires stack[|stack| - 2] < stack[|stack| - 1]
    requires var n := nodes[stack[|stack| - 2]]; n.name == p.name && n.text == p.text && n.attributes == p.attributes
    requires nodes[stack[|stack| - 2]].children == closed + [stack[|stack| - 1]]
    requires forall c :: 0 <= c < |closed| ==> stack[|stack| - 2] < closed[c] < |nodes| && Below(nodes, closed[c], stack[|stack| - 1])
    requires Forest(nodes, closed, stack[|stack| - 2]) == p.children
    requires Tree(nodes, stack[|stack| - 1]) == e
    ensures Level(nodes, stack[..|stack| - 1], |stack| - 2, p.(children := p.children + [e]))
  {
    var top := |stack| - 1;
    var pk := top - 1;
    ParentForest(nodes, stack[pk], closed, stack[top], p.children, e);
    var stack' := stack[..top];
    assert |stack'| - 1 == pk && stack'[pk] == stack[pk];
    assert Closed(nodes, stack', pk) == nodes[stack[pk]].children;
  }

  /** The parent's child list, once its last child has closed, reads back as the closed trees followed by that child's. */
  lemma ParentForest(nodes: seq<Node>, parent: nat, closed: seq<nat>, h: nat, trees: seq<Entity>, e: Entity)
    requires WellFormed(nodes) && parent < h < |nodes|
    requires nodes[parent].children == closed + [h]
    requires forall c :: 0 <= c < |closed| ==> parent < closed[c] < |nodes| && Below(nodes, closed[c], h)
    requires Forest(nodes, closed, parent) == trees && Tree(nodes, h) == e
    ensures forall c :: 0 <= c < |nodes[parent].children| ==> Below(nodes, nodes[parent].children[c], |nodes|)
    ensures Forest(nodes, nodes[parent].children, parent) == trees + [e]
  {
    ClosedAll(nodes, parent, closed, h);
  }

  /** The parent of the innermost entity: its closed children, then the innermost one. */
  lemma ParentClosed(nodes: seq<Node>, stack: seq<nat>, p: Entity) returns (closed: seq<nat>)
    requires WellFormed(nodes) && |stack| >= 2
    requires forall k :: 0 <= k < |stack| ==> stack[k] < |nodes|
    requires stack[|stack| - 2] < stack[|stack| - 1]
    requires Level(nodes, stack, |stack| - 2, p)
    ensures var pk := |stack| - 2; var h := stack[|stack| - 1];
      nodes[stack[pk]].children == closed + [h] && Forest(nodes, closed, stack[pk]) == p.children
      && forall c :: 0 <= c < |closed| ==> stack[pk] < closed[c] < |nodes| && Below(nodes, closed[c], h)
  {
    var pk := |stack| - 2;
    closed := Closed(nodes, stack, pk);
    LevelClosed(nodes, stack, pk, p);
  }

  /**
   * A parent's closed children below `h`, followed by `h` itself: all of
   * them reach only allocated handles, and their trees are the closed trees
   * followed by h's.
   */
  lemma ClosedAll(nodes: seq<Node>, parent: nat, closed: seq<nat>, h: nat)
    requires WellFormed(nodes) && parent < h < |nodes|
    requires nodes[parent].children == closed + [h]
    requires forall c :: 0 <= c < |closed| ==> parent < closed[c] < |nodes| && Below(nodes, closed[c], h)
    ensures forall c :: 0 <= c < |nodes[parent].children| ==> Below(nodes, nodes[parent].children[c], |nodes|)
    ensures Forest(nodes, nodes[parent].children, parent) == Forest(nodes, closed, parent) + [Tree(nodes, h)]
  {
    forall c | 0 <= c < |closed + [h]| ensures Below(nodes, (closed + [h])[c], |nodes|) {
      if c < |closed| {
        BelowWiden(nodes, closed[c], h, |nodes|);
      } else {
        BelowSize(nodes, h);
      }
    }
    ForestAppend(nodes, closed, h, parent);
  }

  /** The levels below the parent of the closing entity are untouched by an end event. */
  lemma EndOuterLevels(nodes: seq<Node>, stack: seq<nat>, r: Reading)
    requires WellFormed(nodes) && |stack| == |r.open| && stack != []
    requires forall k :: 0 <= k < |stack| ==> stack[k] < |nodes|
    requires forall k, l :: 0 <= k < l < |stack| ==> stack[k] < stack[l]
    requires forall k :: 0 <= k < |stack| ==> Level(nodes, stack, k, r.open[k])
    ensures forall k :: 0 <= k < |stack| - 2 ==> Level(nodes, stack[..|stack| - 1], k, r.open[k])
  {
    var stack' := stack[..|stack| - 1];
    forall k | 0 <= k < |stack| - 2 ensures Level(nodes, stack', k, r.open[k]) {
      assert Level(nodes, stack, k, r.open[k]);
      assert Closed(nodes, stack', k) == Closed(nodes, stack, k);
      LevelFrame(nodes, stack, nodes, stack', k, r.open[k], r.open[k]);
    }
  }

  /** After the innermost entity closes, every level of the shorter stack matches the new open list. */
  lemma EndLevels(nodes: seq<Node>, stack: seq<nat>, r: Reading, open': seq<Entity>)
    requires WellFormed(nodes) && |stack| == |r.open| && |stack| >= 2
    requires forall k :: 0 <= k < |stack| ==> stack[k] < |nodes|
    requires forall k, l :: 0 <= k < l < |stack| ==> stack[k] < stack[l]
    requires forall k :: 0 <= k < |stack| ==> Level(nodes, stack, k, r.open[k])
    requires var p := r.open[|stack| - 2];
      open' == r.open[..|stack| - 2] + [p.(children := p.children + [r.open[|stack| - 1]])]
    ensures forall k :: 0 <= k < |stack| - 1 ==> Level(nodes, stack[..|stack| - 1], k, open'[k])
  {
    var top := |stack| - 1;
    assert Level(nodes, stack, top, r.open[top]);
    TopTree(nodes, stack, r);
    assert Level(nodes, stack, top - 1, r.open[top - 1]);
    var closed := ParentClosed(nodes, stack, r.open[top - 1]);
    EndParentLevel(nodes, stack, r.open[top - 1], r.open[top], closed);
    EndOuterLevels(nodes, stack, r);
    forall k | 0 <= k < top ensures Level(nodes, stack[..top], k, open'[k]) {
      if k < top - 1 {
        assert open'[k] == r.open[k];
      }
    }
  }

  /** An end event that closes an entity with an open parent keeps the correspondence. */
  lemma EndInner(nodes: seq<Node>, stack: seq<nat>, first: Option<nat>, done: bool, r: Reading, rootBound: nat, name: string)
    requires Corresponds(nodes, stack, first, done, r, rootBound) && |stack| >= 2
    requires r.open[|r.open| - 1].name == name
    ensures Accepts(r, End(name))
    ensures Corresponds(nodes, stack[..|stack| - 1], first, done, Apply(r, End(name)), rootBound)
  {
    var top := |stack| - 1;
    var r' := Apply(r, End(name));
    var p := r.open[top - 1];
    assert r'.open == r.open[..top - 1] + [p.(children := p.children + [r.open[top]])];
    assert r'.root == r.root;
    EndLevels(nodes, stack, r, r'.open);
  }

  /** An end event that closes the outermost open entity keeps the correspondence. */
  lemma EndOutermost(nodes: seq<Node>, stack: seq<nat>, first: Option<nat>, done: bool, r: Reading, rootBound: nat, name: string)
    returns (rootBound': nat)
    requires Corresponds(nodes, stack, first, done, r, rootBound) && |stack| == 1
    requires r.open[0].name == name
    ensures Accepts(r, End(name))
    ensures first.Some? && stack == [first.value] ==> name == nodes[first.value].name
    ensures Corresponds(nodes, [], first, done || (first.Some? && stack == [first.value]), Apply(r, End(name)), rootBound')
  {
    assert Level(nodes, stack, 0, r.open[0]);
    TopTree(nodes, stack, r);
    rootBound' := if r.root.None? then |nodes| else rootBound;
  }

  /** An end event that the tokenizer can deliver keeps the correspondence. */
  lemma EndCorresponds(nodes: seq<Node>, stack: seq<nat>, first: Option<nat>, done: bool, r: Reading, rootBound: nat, name: string)
    returns (rootBound': nat)
    requires Corresponds(nodes, stack, first, done, r, rootBound) && stack != []
    requires nodes[stack[|stack| - 1]].name == name
    ensures Accepts(r, End(name))
    ensures first.Some? && stack == [first.value] ==> name == nodes[first.value].name
    ensures Corresponds(nodes, stack[..|stack| - 1], first, done || (first.Some? && stack == [first.value]),
                        Apply(r, End(name)), rootBound')
  {
    assert Level(nodes, stack, |stack| - 1, r.open[|stack| - 1]);
    if |stack| >= 2 {
      EndInner(nodes, stack, first, done, r, rootBound, name);
      assert !(first.Some? && stack == [first.value]);
      rootBound' := rootBound;
    } else {
      rootBound' := EndOutermost(nodes, stack, first, done, r, rootBound, name);
      assert stack[..0] == [];
    }
  }
}
