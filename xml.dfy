// The XML entity tree of omp/xml.c, as the read-only value that callers of
// read_entity receive: constructor defaults, child and attribute lookup,
// structural comparison and printing.

module Options {
  /** A pointer that may be NULL, or a value that may be absent. */
  datatype Option<+T> = None | Some(value: T)
}

module Xml {
  import opened Options

  /** An attribute table; `None` is the NULL hash table, distinct from an empty one. */
  type Attributes = Option<map<string, string>>

  /** One XML element: name, accumulated text, attributes and ordered children. */
  datatype Entity = Entity(name: string, text: string, attributes: Attributes, children: seq<Entity>)

  /** make_entity: a missing name or text becomes "", no children, no attribute table. */
  function MakeEntity(name: Option<string>, text: Option<string>): (e: Entity)
    ensures e.name == (if name.Some? then name.value else "")
    ensures e.text == (if text.Some? then text.value else "")
    ensures e.children == [] && e.attributes.None?
  {
    Entity(if name.Some? then name.value else "", if text.Some? then text.value else "", None, [])
  }

  /** Looking a name up in an attribute table that may be absent. */
  function Lookup(attributes: Attributes, key: string): (r: Option<string>)
    ensures r.Some? <==> attributes.Some? && key in attributes.value
    ensures r.Some? ==> r.value == attributes.value[key]
  {
    if attributes.Some? && key in attributes.value then Some(attributes.value[key]) else None
  }

  /** entity_attribute: NULL when the table is absent or lacks the name. */
  function EntityAttribute(e: Entity, key: string): (r: Option<string>)
    ensures r.Some? <==> e.attributes.Some? && key in e.attributes.value
    ensures r.Some? ==> r.value == e.attributes.value[key]
  {
    Lookup(e.attributes, key)
  }

  /**
   * add_attribute: create the table when absent, then insert, replacing any
   * earlier value for the same name.
   */
  function Upsert(attributes: Attributes, key: string, value: string): (r: Attributes)
    ensures r.Some?
    ensures Lookup(r, key) == Some(value)
    ensures forall k :: k != key ==> Lookup(r, k) == Lookup(attributes, k)
  {
    Some((if attributes.Some? then attributes.value else map[])[key := value])
  }

  /**
   * add_attributes: the (name, value) pairs are taken in order up to the end of
   * the shorter list (the NULL terminator of either array); a later pair
   * overwrites an earlier one with the same name. With no pair at all the
   * table is left as it was, absent included.
   */
  function AddAttributes(attributes: Attributes, names: seq<string>, values: seq<string>): (r: Attributes)
    ensures |names| == 0 || |values| == 0 ==> r == attributes
    ensures |names| > 0 && |values| > 0 ==> r.Some?
  {
    if |names| == 0 || |values| == 0 then attributes
    else InsertPairs(if attributes.Some? then attributes.value else map[], names, values, Pairs(names, values))
  }

  /** Number of pairs add_attributes consumes. */
  function Pairs(names: seq<string>, values: seq<string>): nat
  {
    if |names| < |values| then |names| else |values|
  }

  /** The table after inserting the first `n` pairs, in order. */
  function InsertPairs(m: map<string, string>, names: seq<string>, values: seq<string>, n: nat): (r: Attributes)
    requires n <= |names| && n <= |values|
    decreases n
  {
    if n == 0 then Some(m)
    else Some(InsertPairs(m, names, values, n - 1).value[names[n - 1] := values[n - 1]])
  }

  /** The value an attribute has after add_attributes: the last pair naming it wins. */
  lemma {:induction false} InsertPairsLookup(m: map<string, string>, names: seq<string>, values: seq<string>, n: nat, key: string)
    requires n <= |names| && n <= |values|
    ensures (exists i :: 0 <= i < n && names[i] == key) ==>
              exists i :: 0 <= i < n && names[i] == key && Lookup(InsertPairs(m, names, values, n), key) == Some(values[i])
                          && forall j :: i < j < n ==> names[j] != key
    ensures (forall i :: 0 <= i < n ==> names[i] != key) ==>
              Lookup(InsertPairs(m, names, values, n), key) == Lookup(Some(m), key)
    decreases n
  {
    if n > 0 {
      InsertPairsLookup(m, names, values, n - 1, key);
      if names[n - 1] != key && exists i :: 0 <= i < n && names[i] == key {
        var i :| 0 <= i < n && names[i] == key;
        assert i < n - 1;
      }
    }
  }

  /** Index of the first entity in `cs` named exactly `name` (strcmp). */
  function FirstNamed(cs: seq<Entity>, name: string): (r: Option<nat>)
    ensures r.Some? ==> r.value < |cs| && cs[r.value].name == name
                        && forall j :: 0 <= j < r.value ==> cs[j].name != name
    ensures r.None? ==> forall j :: 0 <= j < |cs| ==> cs[j].name != name
  {
    if cs == [] then None
    else if cs[0].name == name then Some(0)
    else match FirstNamed(cs[1..], name)
      case None => None
      case Some(k) => Some(k + 1)
  }

  /**
   * entity_child: the first direct child whose name is byte-equal to `name`,
   * or NULL. Only direct children are looked at.
   */
  function EntityChild(e: Entity, name: string): (r: Option<Entity>)
    ensures r.None? <==> forall j :: 0 <= j < |e.children| ==> e.children[j].name != name
    ensures r.Some? ==> exists k :: 0 <= k < |e.children| && e.children[k] == r.value && r.value.name == name
                                    && forall j :: 0 <= j < k ==> e.children[j].name != name
  {
    match FirstNamed(e.children, name)
    case None => None
    case Some(k) => Some(e.children[k])
  }

  // ---------------------------------------------------------------------
  // compare_entities

  /** compare_find_attribute over the whole first table: every pair of `a` is in `b`. */
  predicate AttributesContained(a: map<string, string>, b: map<string, string>)
  {
    forall k :: k in a ==> k in b && b[k] == a[k]
  }

  /**
   * compare_entities, 0 for equal and 1 otherwise. NULL only equals NULL; an
   * entity without a table equals exactly the entities without one, whatever
   * their names, texts and children; otherwise names, texts, the attributes of
   * the first (looked up in the second) and the children in order are compared.
   */
  function CompareEntities(a: Option<Entity>, b: Option<Entity>): (r: int)
    ensures r == 0 || r == 1
    decreases if a.Some? then a.value else Entity("", "", None, []), 1
  {
    if a.None? then (if b.None? then 0 else 1)
    else if b.None? then 1
    else if a.value.attributes.None? then (if b.value.attributes.None? then 0 else 1)
    else if b.value.attributes.None? then 1
    else if a.value.name != b.value.name then 1
    else if a.value.text != b.value.text then 1
    else if !AttributesContained(a.value.attributes.value, b.value.attributes.value) then 1
    else CompareChildren(a.value, a.value.children, b.value.children)
  }

  /** The walk over both child lists; `parent` only bounds the recursion. */
  function CompareChildren(ghost parent: Entity, xs: seq<Entity>, ys: seq<Entity>): (r: int)
    requires forall i :: 0 <= i < |xs| ==> xs[i] < parent
    ensures r == 0 || r == 1
    decreases parent, 0, |xs|
  {
    if xs == [] || ys == [] then (if xs == [] && ys == [] then 0 else 1)
    else if CompareEntities(Some(xs[0]), Some(ys[0])) != 0 then 1
    else CompareChildren(parent, xs[1..], ys[1..])
  }

  /**
   * A declarative reading of what compare_entities accepts: a one-directional
   * match, since only the first entity's attributes are looked up.
   */
  ghost predicate Matches(a: Entity, b: Entity)
    decreases a
  {
    if a.attributes.None? then b.attributes.None?
    else b.attributes.Some? && a.name == b.name && a.text == b.text
         && AttributesContained(a.attributes.value, b.attributes.value)
         && |a.children| == |b.children|
         && forall i :: 0 <= i < |a.children| ==> Matches(a.children[i], b.children[i])
  }

  /** compare_entities returns 0 exactly when the two trees match. */
  lemma {:induction false} CompareEntitiesMeansMatches(a: Entity, b: Entity)
    ensures CompareEntities(Some(a), Some(b)) == 0 <==> Matches(a, b)
    decreases a, 1
  {
    if a.attributes.Some? && b.attributes.Some? && a.name == b.name && a.text == b.text
       && AttributesContained(a.attributes.value, b.attributes.value) {
      CompareChildrenMeansMatches(a, a.children, b.children);
    }
  }

  lemma {:induction false} CompareChildrenMeansMatches(parent: Entity, xs: seq<Entity>, ys: seq<Entity>)
    requires forall i :: 0 <= i < |xs| ==> xs[i] < parent
    ensures CompareChildren(parent, xs, ys) == 0 <==>
            |xs| == |ys| && forall i :: 0 <= i < |xs| ==> Matches(xs[i], ys[i])
    decreases parent, 0, |xs|
  {
    if xs != [] && ys != [] {
      CompareEntitiesMeansMatches(xs[0], ys[0]);
      CompareChildrenMeansMatches(parent, xs[1..], ys[1..]);
      if |xs| == |ys| && forall i :: 0 <= i < |xs| ==> Matches(xs[i], ys[i]) {
        assert forall i :: 0 <= i < |xs| - 1 ==> Matches(xs[1..][i], ys[1..][i]) by {
          forall i | 0 <= i < |xs| - 1 ensures Matches(xs[1..][i], ys[1..][i]) {
            assert xs[1..][i] == xs[i + 1] && ys[1..][i] == ys[i + 1];
          }
        }
      }
      if CompareChildren(parent, xs, ys) == 0 {
        forall i | 0 <= i < |xs| ensures Matches(xs[i], ys[i]) {
          if i > 0 { assert xs[i] == xs[1..][i - 1] && ys[i] == ys[1..][i - 1]; }
        }
      }
    }
  }

  /** Every entity compares equal to itself. */
  lemma {:induction false} CompareEntitiesReflexive(e: Entity)
    ensures CompareEntities(Some(e), Some(e)) == 0
    decreases e
  {
    MatchesReflexive(e);
    CompareEntitiesMeansMatches(e, e);
  }

  lemma {:induction false} MatchesReflexive(e: Entity)
    ensures Matches(e, e)
    decreases e
  {
    if e.attributes.Some? {
      forall i | 0 <= i < |e.children| ensures Matches(e.children[i], e.children[i]) {
        MatchesReflexive(e.children[i]);
      }
    }
  }

  /**
   * The comparison is one-directional: an empty table is contained in any
   * other, so the two orders of the same pair disagree.
   */
  lemma CompareEntitiesNotSymmetric()
    ensures var a := Entity("a", "", Some(map[]), []);
            var b := Entity("a", "", Some(map["x" := "1"]), []);
            CompareEntities(Some(a), Some(b)) == 0 && CompareEntities(Some(b), Some(a)) == 1
  {
    var b := Entity("a", "", Some(map["x" := "1"]), []);
    assert "x" in b.attributes.value;
  }

  /**
   * Two entities without attribute tables compare equal whatever their
   * names, texts and children: `<a>x</a>` equals `<b>y<c/></b>`.
   */
  lemma CompareEntitiesIgnoresPlainEntities()
    ensures var a := Entity("a", "x", None, []);
            var b := Entity("b", "y", None, [Entity("c", "", None, [])]);
            CompareEntities(Some(a), Some(b)) == 0 && CompareEntities(Some(b), Some(a)) == 0 && a != b
  {
  }

  /**
   * compare_entities as intended: an absent table differs from a present
   * one, and entities without tables are compared by name, text and
   * children like the others.
   */
  function CompareEntitiesCorrected(a: Option<Entity>, b: Option<Entity>): (r: int)
    ensures r == 0 || r == 1
    decreases if a.Some? then a.value else Entity("", "", None, []), 1
  {
    if a.None? then (if b.None? then 0 else 1)
    else if b.None? then 1
    else if a.value.attributes.Some? != b.value.attributes.Some? then 1
    else if a.value.name != b.value.name then 1
    else if a.value.text != b.value.text then 1
    else if a.value.attributes.Some? && !AttributesContained(a.value.attributes.value, b.value.attributes.value) then 1
    else CompareChildrenCorrected(a.value, a.value.children, b.value.children)
  }

  function CompareChildrenCorrected(ghost parent: Entity, xs: seq<Entity>, ys: seq<Entity>): (r: int)
    requires forall i :: 0 <= i < |xs| ==> xs[i] < parent
    ensures r == 0 || r == 1
    decreases parent, 0, |xs|
  {
    if xs == [] || ys == [] then (if xs == [] && ys == [] then 0 else 1)
    else if CompareEntitiesCorrected(Some(xs[0]), Some(ys[0])) != 0 then 1
    else CompareChildrenCorrected(parent, xs[1..], ys[1..])
  }

  /** Two entities compare equal in both orders exactly when they are the same tree. */
  lemma {:induction false} CompareEntitiesCorrectedBothWays(a: Entity, b: Entity)
    ensures CompareEntitiesCorrected(Some(a), Some(b)) == 0 && CompareEntitiesCorrected(Some(b), Some(a)) == 0 <==> a == b
    decreases a, 1
  {
    if a == b {
      CompareEntitiesCorrectedReflexive(a);
    } else if CompareEntitiesCorrected(Some(a), Some(b)) == 0 && CompareEntitiesCorrected(Some(b), Some(a)) == 0 {
      if a.attributes.Some? {
        assert a.attributes.value == b.attributes.value by {
          assert AttributesContained(a.attributes.value, b.attributes.value);
          assert AttributesContained(b.attributes.value, a.attributes.value);
        }
      }
      CompareChildrenCorrectedBothWays(a, b, a.children, b.children);
      assert false;
    }
  }

  lemma {:induction false} CompareChildrenCorrectedBothWays(pa: Entity, pb: Entity, xs: seq<Entity>, ys: seq<Entity>)
    requires forall i :: 0 <= i < |xs| ==> xs[i] < pa
    requires forall i :: 0 <= i < |ys| ==> ys[i] < pb
    requires CompareChildrenCorrected(pa, xs, ys) == 0 && CompareChildrenCorrected(pb, ys, xs) == 0
    ensures xs == ys
    decreases pa, 0, |xs|
  {
    if xs != [] {
      CompareEntitiesCorrectedBothWays(xs[0], ys[0]);
      CompareChildrenCorrectedBothWays(pa, pb, xs[1..], ys[1..]);
      assert xs == [xs[0]] + xs[1..] && ys == [ys[0]] + ys[1..];
    }
  }

  lemma {:induction false} CompareEntitiesCorrectedReflexive(e: Entity)
    ensures CompareEntitiesCorrected(Some(e), Some(e)) == 0
    decreases e, 1
  {
    if e.attributes.Some? {
      assert AttributesContained(e.attributes.value, e.attributes.value);
    }
    CompareChildrenCorrectedReflexive(e, e.children);
  }

  lemma {:induction false} CompareChildrenCorrectedReflexive(parent: Entity, xs: seq<Entity>)
    requires forall i :: 0 <= i < |xs| ==> xs[i] < parent
    ensures CompareChildrenCorrected(parent, xs, xs) == 0
    decreases parent, 0, |xs|
  {
    if xs != [] {
      CompareEntitiesCorrectedReflexive(xs[0]);
      CompareChildrenCorrectedReflexive(parent, xs[1..]);
    }
  }

  /** On entities that carry tables throughout, both comparisons agree. */
  lemma {:induction false} CompareEntitiesCorrectedAgrees(a: Entity, b: Entity)
    requires Tabled(a) && Tabled(b)
    ensures CompareEntitiesCorrected(Some(a), Some(b)) == CompareEntities(Some(a), Some(b))
    decreases a, 1
  {
    if a.name == b.name && a.text == b.text && AttributesContained(a.attributes.value, b.attributes.value) {
      CompareChildrenCorrectedAgrees(a, a.children, b.children);
    }
  }

  lemma {:induction false} CompareChildrenCorrectedAgrees(parent: Entity, xs: seq<Entity>, ys: seq<Entity>)
    requires forall i :: 0 <= i < |xs| ==> xs[i] < parent && Tabled(xs[i])
    requires forall i :: 0 <= i < |ys| ==> Tabled(ys[i])
    ensures CompareChildrenCorrected(parent, xs, ys) == CompareChildren(parent, xs, ys)
    decreases parent, 0, |xs|
  {
    if xs != [] && ys != [] {
      CompareEntitiesCorrectedAgrees(xs[0], ys[0]);
      CompareChildrenCorrectedAgrees(parent, xs[1..], ys[1..]);
    }
  }

  /** An entity whose every element has an attribute table. */
  ghost predicate Tabled(e: Entity)
    decreases e
  {
    e.attributes.Some? && forall i :: 0 <= i < |e.children| ==> Tabled(e.children[i])
  }

  // ---------------------------------------------------------------------
  // print_entity

  /**
   * print_entity. The attributes come out in hash-table order, which nothing
   * fixes, so one unspecified order is chosen here.
   */
  ghost function PrintEntity(e: Entity): string
    decreases e, 1
  {
    "<" + e.name + PrintAttributes(if e.attributes.Some? then e.attributes.value else map[]) + ">"
    + e.text + PrintEntities(e, e.children) + "</" + e.name + ">"
  }

  ghost function PrintAttributes(m: map<string, string>): string
    decreases |m|
  {
    if |m| == 0 then ""
    else
      var k :| k in m;
      AttributeText(k, m[k]) + PrintAttributes(m - {k})
  }

  /** foreach_print_attribute: one attribute as ` name="value"`. */
  function AttributeText(name: string, value: string): string
  {
    " " + name + "=\"" + value + "\""
  }

  /** print_entities / the g_slist_foreach over the children. */
  ghost function PrintEntities(parent: Entity, cs: seq<Entity>): string
    requires forall i :: 0 <= i < |cs| ==> cs[i] < parent
    decreases parent, 0, |cs|
  {
    if cs == [] then "" else PrintEntity(cs[0]) + PrintEntities(parent, cs[1..])
  }

  /** An element without attributes (no table, or an empty one) prints as its open tag, text, children and close tag. */
  lemma PrintPlain(e: Entity)
    requires e.attributes.None? || e.attributes == Some(map[])
    ensures PrintEntity(e) == "<" + e.name + ">" + e.text + PrintEntities(e, e.children) + "</" + e.name + ">"
  {
  }

  /** A single attribute is printed inside the open tag, whatever order the table would use. */
  lemma PrintSingleAttribute(e: Entity, name: string, value: string)
    requires e.attributes == Some(map[name := value])
    ensures PrintEntity(e) == "<" + e.name + AttributeText(name, value) + ">" + e.text + PrintEntities(e, e.children) + "</" + e.name + ">"
  {
    var m := map[name := value];
    assert forall k :: k in m ==> k == name && m - {k} == map[];
    assert PrintAttributes(m) == AttributeText(name, value) + PrintAttributes(map[]);
  }

  /**
   * An absent and an empty attribute table print the same, yet
   * compare_entities tells them apart (in either order).
   */
  lemma AbsentAndEmptyTables(e: Entity)
    requires e.attributes.None?
    ensures PrintEntity(e) == PrintEntity(e.(attributes := Some(map[])))
    ensures CompareEntities(Some(e), Some(e.(attributes := Some(map[])))) == 1
    ensures CompareEntities(Some(e.(attributes := Some(map[]))), Some(e)) == 1
  {
    var f := e.(attributes := Some(map[]));
    assert PrintEntities(e, e.children) == PrintEntities(f, f.children) by {
      PrintEntitiesParent(e, f, e.children);
    }
  }

  /** The parent argument of PrintEntities only bounds the recursion. */
  lemma {:induction false} PrintEntitiesParent(p: Entity, q: Entity, cs: seq<Entity>)
    requires forall i :: 0 <= i < |cs| ==> cs[i] < p && cs[i] < q
    ensures PrintEntities(p, cs) == PrintEntities(q, cs)
    decreases |cs|
  {
    if cs != [] { PrintEntitiesParent(p, q, cs[1..]); }
  }
}
