/**
 * The sort orders the manager asks the store for.  The store is MySQL, which
 * puts NULL before every value in ascending order; an attribute without a group
 * has a NULL group priority.
 */
module Orderings {
  import opened Wrappers
  import opened Sorting
  import opened Attributes

  /** The attribute a row refers to: the sort key of every user-attribute ordering. */
  function Attr(r: UserAttribute): Attribute {
    r.attribute
  }

  /** `attribute__group__priority`, NULL when the attribute has no group. */
  function GroupPriority(a: Attribute): Option<int> {
    if a.group.Some? then Some(a.group.value.priority) else None
  }

  /** Ascending order of a nullable integer column, NULL first. */
  predicate NullsFirstLe(x: Option<int>, y: Option<int>) {
    x.None? || (y.Some? && x.value <= y.value)
  }

  /** `order_by('attribute__group__priority', 'attribute__priority')`. */
  predicate GroupThenPriority(a: Attribute, b: Attribute)
    ensures a.group.None? && b.group.Some? ==> GroupThenPriority(a, b)
    ensures a.group.Some? && b.group.None? ==> !GroupThenPriority(a, b)
  {
    if GroupPriority(a) != GroupPriority(b) then NullsFirstLe(GroupPriority(a), GroupPriority(b))
    else a.priority <= b.priority
  }

  /** `order_by('attribute__priority')`. */
  predicate PriorityOnly(a: Attribute, b: Attribute) {
    a.priority <= b.priority
  }

  /** The default ordering of user attributes: group priority, priority, name. */
  predicate DefaultOrder(a: Attribute, b: Attribute)
    ensures a.group.None? && b.group.Some? ==> DefaultOrder(a, b)
    ensures a.group.Some? && b.group.None? ==> !DefaultOrder(a, b)
  {
    if GroupPriority(a) != GroupPriority(b) then NullsFirstLe(GroupPriority(a), GroupPriority(b))
    else if a.priority != b.priority then a.priority < b.priority
    else StrLe(a.name, b.name)
  }

  /** `order_by('priority', 'name')` on attribute groups. */
  predicate PriorityThenName(g: AttributeGroup, h: AttributeGroup) {
    g.priority < h.priority || (g.priority == h.priority && StrLe(g.name, h.name))
  }

  lemma GroupThenPriorityIsTotal()
    ensures TotalPreorder(GroupThenPriority)
  {
  }

  lemma PriorityOnlyIsTotal()
    ensures TotalPreorder(PriorityOnly)
  {
  }

  lemma DefaultOrderIsTotal()
    ensures TotalPreorder(DefaultOrder)
  {
    forall a, b ensures DefaultOrder(a, b) || DefaultOrder(b, a) {
      StrLeTotal(a.name, b.name);
    }
    forall a, b, c | DefaultOrder(a, b) && DefaultOrder(b, c) ensures DefaultOrder(a, c) {
      if GroupPriority(a) == GroupPriority(b) == GroupPriority(c) && a.priority == b.priority == c.priority {
        StrLeTransitive(a.name, b.name, c.name);
      }
    }
  }

  lemma PriorityThenNameIsTotal()
    ensures TotalPreorder(PriorityThenName)
  {
    forall g, h ensures PriorityThenName(g, h) || PriorityThenName(h, g) {
      StrLeTotal(g.name, h.name);
    }
    forall f, g, h | PriorityThenName(f, g) && PriorityThenName(g, h) ensures PriorityThenName(f, h) {
      if f.priority == g.priority == h.priority {
        StrLeTransitive(f.name, g.name, h.name);
      }
    }
  }
}
