// The entities of omp/xml.c as they are built: objects updated in place
// through entity_t pointers. The heap is an arena of entity records; a
// handle (an index into it) plays the role of the entity_t pointer, so two
// handles are the same entity exactly when they are equal.

module XmlHeap {
  import opened Options
  import opened Xml

  /** One entity record; `children` holds the handles of its child list in order. */
  datatype Node = Node(name: string, text: string, attributes: Attributes, children: seq<nat>)

  /**
   * Every child handle is larger than its parent's and names an allocated
   * record: entities are allocated before their children, so the child
   * lists can never form a cycle.
   */
  ghost predicate WellFormed(nodes: seq<Node>)
  {
    forall i, k :: 0 <= i < |nodes| && 0 <= k < |nodes[i].children| ==> i < nodes[i].children[k] < |nodes|
  }

  /** The record of a fresh entity, as make_entity leaves it. */
  function Record(e: Entity): Node
  {
    Node(e.name, e.text, e.attributes, [])
  }

  /** The tree that handle `h` denotes, read through the child lists. */
  function Tree(nodes: seq<Node>, h: nat): Entity
    requires WellFormed(nodes) && h < |nodes|
    decreases |nodes| - h, 1
  {
    Entity(nodes[h].name, nodes[h].text, nodes[h].attributes, Forest(nodes, nodes[h].children, h))
  }

  /** The trees of a list of handles, all larger than `parent`. */
  function Forest(nodes: seq<Node>, hs: seq<nat>, parent: nat): (r: seq<Entity>)
    requires WellFormed(nodes) && forall k :: 0 <= k < |hs| ==> parent < hs[k] < |nodes|
    ensures |r| == |hs|
    decreases |nodes| - parent, 0, |hs|
  {
    if hs == [] then [] else [Tree(nodes, hs[0])] + Forest(nodes, hs[1..], parent)
  }

  lemma {:induction false} ForestAppend(nodes: seq<Node>, hs: seq<nat>, h: nat, parent: nat)
    requires WellFormed(nodes) && parent < h < |nodes|
    requires forall k :: 0 <= k < |hs| ==> parent < hs[k] < |nodes|
    ensures Forest(nodes, hs + [h], parent) == Forest(nodes, hs, parent) + [Tree(nodes, h)]
    decreases |hs|
  {
    if hs == [] {
      assert Forest(nodes, [h], parent) == [Tree(nodes, h)] + Forest(nodes, [], parent);
    } else {
      assert (hs + [h])[1..] == hs[1..] + [h];
      ForestAppend(nodes, hs[1..], h, parent);
    }
  }

  /** Everything reachable from `h` (itself included) has a handle below `hi`. */
  ghost predicate Below(nodes: seq<Node>, h: nat, hi: nat)
    requires WellFormed(nodes) && h < |nodes|
    decreases |nodes| - h
  {
    h < hi && forall k :: 0 <= k < |nodes[h].children| ==> Below(nodes, nodes[h].children[k], hi)
  }

  /** Each allocated entity's reachable handles are allocated. */
  lemma {:induction false} BelowSize(nodes: seq<Node>, h: nat)
    requires WellFormed(nodes) && h < |nodes|
    ensures Below(nodes, h, |nodes|)
    decreases |nodes| - h
  {
    forall k | 0 <= k < |nodes[h].children| ensures Below(nodes, nodes[h].children[k], |nodes|) {
      BelowSize(nodes, nodes[h].children[k]);
    }
  }

  lemma {:induction false} BelowWiden(nodes: seq<Node>, h: nat, hi: nat, hi': nat)
    requires WellFormed(nodes) && h < |nodes| && Below(nodes, h, hi) && hi <= hi'
    ensures Below(nodes, h, hi')
    decreases |nodes| - h
  {
    forall k | 0 <= k < |nodes[h].children| ensures Below(nodes, nodes[h].children[k], hi') {
      BelowWiden(nodes, nodes[h].children[k], hi, hi');
    }
  }

  /**
   * The frame of a tree: two heaps that agree on the handles from `h` up to
   * `hi` give `h` the same tree when everything reachable from it is below `hi`.
   */
  lemma {:induction false} TreeFrame(a: seq<Node>, b: seq<Node>, h: nat, hi: nat)
    requires WellFormed(a) && WellFormed(b) && h < |a| && hi <= |a| && hi <= |b|
    requires Below(a, h, hi)
    requires forall i :: h <= i < hi ==> a[i] == b[i]
    ensures Below(b, h, hi) && Tree(a, h) == Tree(b, h)
    decreases |a| - h, 1
  {
    ForestFrame(a, b, a[h].children, h, hi);
  }

  lemma {:induction false} ForestFrame(a: seq<Node>, b: seq<Node>, hs: seq<nat>, parent: nat, hi: nat)
    requires WellFormed(a) && WellFormed(b) && hi <= |a| && hi <= |b|
    requires forall k :: 0 <= k < |hs| ==> parent < hs[k] < |a| && Below(a, hs[k], hi)
    requires forall i :: parent < i < hi ==> a[i] == b[i]
    ensures forall k :: 0 <= k < |hs| ==> parent < hs[k] < |b| && Below(b, hs[k], hi)
    ensures Forest(a, hs, parent) == Forest(b, hs, parent)
    decreases |a| - parent, 0, |hs|
  {
    if hs != [] {
      TreeFrame(a, b, hs[0], hi);
      ForestFrame(a, b, hs[1..], parent, hi);
      forall k | 0 <= k < |hs| ensures parent < hs[k] < |b| && Below(b, hs[k], hi) {
        if k > 0 { assert hs[k] == hs[1..][k - 1]; }
      }
    }
  }

  /** The heap after `parent`'s child list gains `child` at its end. */
  function AppendChild(nodes: seq<Node>, parent: nat, child: nat): (r: seq<Node>)
    requires parent < |nodes|
    ensures |r| == |nodes| && r[parent].children == nodes[parent].children + [child]
    ensures forall i :: 0 <= i < |nodes| && i != parent ==> r[i] == nodes[i]
  {
    nodes[parent := nodes[parent].(children := nodes[parent].children + [child])]
  }

  /**
   * The entities allocated so far. make_entity, add_entity, add_attribute and
   * add_attributes change them in place.
   */
  class EntityHeap {
    var nodes: seq<Node>

    ghost predicate Valid()
      reads this
    {
      WellFormed(nodes)
    }

    constructor ()
      ensures Valid() && nodes == []
    {
      nodes := [];
    }

    /**
     * add_entity: allocate an entity made by make_entity; with a child list
     * (here: the entity owning it) append it there as the last child, leaving
     * the earlier children and their order alone; with none it stays detached.
     */
    method AddEntity(parent: Option<nat>, name: Option<string>, text: Option<string>) returns (h: nat)
      requires Valid() && (parent.Some? ==> parent.value < |nodes|)
      modifies this
      ensures Valid() && h == |old(nodes)| && |nodes| == h + 1
      ensures nodes[h] == Record(MakeEntity(name, text))
      ensures parent.Some? ==> nodes[..h] == AppendChild(old(nodes), parent.value, h)
      ensures parent.None? ==> nodes[..h] == old(nodes)
    {
      h := |nodes|;
      var made := Record(MakeEntity(name, text));
      if parent.Some? {
        nodes := AppendChild(nodes, parent.value, h) + [made];
      } else {
        nodes := nodes + [made];
      }
      assert nodes[..h] == old(nodes) || parent.Some?;
    }

    /** add_attribute: an upsert into the entity's table, which it creates if absent. */
    method AddAttribute(h: nat, key: string, value: string)
      requires Valid() && h < |nodes|
      modifies this
      ensures Valid()
      ensures nodes == old(nodes)[h := old(nodes)[h].(attributes := Upsert(old(nodes)[h].attributes, key, value))]
    {
      nodes := nodes[h := nodes[h].(attributes := Upsert(nodes[h].attributes, key, value))];
    }

    /**
     * add_attributes: walk both NULL-terminated arrays together, inserting
     * each pair, until either runs out.
     */
    method AddAttributes(h: nat, names: seq<string>, values: seq<string>)
      requires Valid() && h < |nodes|
      modifies this
      ensures Valid()
      ensures nodes == old(nodes)[h := old(nodes)[h].(attributes := Xml.AddAttributes(old(nodes)[h].attributes, names, values))]
    {
      if |names| > 0 && |values| > 0 {
        var table := if nodes[h].attributes.Some? then nodes[h].attributes.value else map[];
        ghost var start := table;
        var i := 0;
        while i < |names| && i < |values|
          invariant 0 <= i <= Pairs(names, values)
          invariant Some(table) == InsertPairs(start, names, values, i)
        {
          table := table[names[i] := values[i]];
          i := i + 1;
        }
        nodes := nodes[h := nodes[h].(attributes := Some(table))];
      }
    }

    /** The tree an entity handle denotes. */
    function Value(h: nat): Entity
      reads this
      requires Valid() && h < |nodes|
    {
      Tree(nodes, h)
    }
  }
}
