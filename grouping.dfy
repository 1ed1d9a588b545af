/**
 * `by_group` and `by_group_all`: a user's attribute rows arranged as an ordered
 * mapping from group name to a bucket of rows, in (priority, name) order of the
 * groups, followed by an 'ungrouped' bucket when some row has no group.
 */
module Grouping {
  import opened Wrappers
  import opened Sorting
  import opened PyList
  import opened Attributes
  import opened Orderings
  import opened Manager

  /** The key of the trailing bucket of rows without a group. */
  const UNGROUPED: string := "ungrouped"

  /** The value stored under one key of the mapping. */
  datatype Bucket =
    | GroupBucket(priority: int, displayLabel: string, attributes: seq<UserAttribute>)
    | UngroupedBucket(attributes: seq<UserAttribute>)

  /** One key of the ordered mapping, with its value. */
  datatype Entry = Entry(key: string, bucket: Bucket)

  predicate InGroup(r: UserAttribute, name: string) {
    r.Group().Some? && r.Group().value.name == name
  }

  /** The condition "belongs to the group called `name`", as a function value. */
  function InGroupOf(name: string): UserAttribute -> bool {
    r => InGroup(r, name)
  }

  predicate IsUngrouped(r: UserAttribute) {
    r.Group().None?
  }

  /**
   * Among the rows, a group name identifies one group, and no group is called
   * 'ungrouped' (the mapping is keyed by name, so either would merge buckets).
   */
  predicate WellNamed(rs: seq<UserAttribute>) {
    && (forall a, b | a in rs && b in rs && a.Group().Some? && b.Group().Some?
          && a.Group().value.name == b.Group().value.name :: a.Group() == b.Group())
    && (forall a | a in rs && a.Group().Some? :: a.Group().value.name != UNGROUPED)
  }

  // ---------------------------------------------------------------- the groups in use

  /** The group of every grouped row, in row order. */
  function GroupsOf(rs: seq<UserAttribute>): (gs: seq<AttributeGroup>)
    ensures forall g | g in gs :: exists r | r in rs :: r.Group() == Some(g)
    ensures forall r | r in rs && r.Group().Some? :: r.Group().value in gs
  {
    if rs == [] then []
    else
      assert forall r | r in rs :: r == rs[0] || r in rs[1..];
      (if rs[0].Group().Some? then [rs[0].Group().value] else []) + GroupsOf(rs[1..])
  }

  /** The sort key of the group query: the group itself, whose priority and name are compared. */
  function GroupItself(g: AttributeGroup): AttributeGroup {
    g
  }

  /**
   * The groups the rows use, each once, ordered by (priority, name): the
   * `AttributeGroup` query of `by_group`.
   */
  function UsedGroups(rs: seq<UserAttribute>): (gs: seq<AttributeGroup>)
    ensures forall g | g in gs :: exists r | r in rs :: r.Group() == Some(g)
    ensures forall r | r in rs && r.Group().Some? :: r.Group().value in gs
    ensures NoDuplicates(gs)
    ensures SortedBy(gs, GroupItself, PriorityThenName)
  {
    PriorityThenNameIsTotal();
    var d := Distinct(GroupsOf(rs));
    var gs := SortBy(d, GroupItself, PriorityThenName);
    NoDuplicatesPermutation(d, gs);
    assert forall g | g in gs :: g in d by {
      forall g | g in gs ensures g in d {
        assert multiset(gs)[g] > 0;
      }
    }
    assert forall g | g in d :: g in gs by {
      forall g | g in d ensures g in gs {
        assert multiset(d)[g] > 0;
      }
    }
    gs
  }

  /** The names of the groups, in order. */
  function Names(gs: seq<AttributeGroup>): (ns: seq<string>)
    ensures |ns| == |gs| && forall k | 0 <= k < |gs| :: ns[k] == gs[k].name
  {
    if gs == [] then [] else Names(gs[..|gs| - 1]) + [gs[|gs| - 1].name]
  }

  /**
   * The groups in use are in strictly ascending (priority, name) order: no two
   * of them share a name.
   */
  lemma UsedGroupsAscending(rs: seq<UserAttribute>)
    requires WellNamed(rs)
    ensures var gs := UsedGroups(rs);
            forall i, j | 0 <= i < j < |gs| ::
              gs[i].name != gs[j].name && PriorityThenName(gs[i], gs[j])
    ensures NoDuplicates(Names(UsedGroups(rs)))
  {
    var gs := UsedGroups(rs);
    forall i, j | 0 <= i < j < |gs|
      ensures gs[i].name != gs[j].name && PriorityThenName(gs[i], gs[j])
    {
      assert PriorityThenName(GroupItself(gs[i]), GroupItself(gs[j]));
      var gi, gj := gs[i], gs[j];
      assert gi in gs && gj in gs && gi != gj;
      var a :| a in rs && a.Group() == Some(gi);
      var b :| b in rs && b.Group() == Some(gj);
    }
  }

  // ---------------------------------------------------------------- the buckets

  /**
   * The bucket of group `name` once the loop has processed the rows `rs`: each
   * row of the group inserted with `list.insert(priority, row)`.
   */
  function Placed(rs: seq<UserAttribute>, name: string): seq<UserAttribute> {
    if rs == [] then []
    else
      var init, r := rs[..|rs| - 1], rs[|rs| - 1];
      if InGroup(r, name) then PyInsert(Placed(init, name), r.Priority(), r) else Placed(init, name)
  }

  /** The bucket of a group holds exactly the rows of that group, each as often as it occurs. */
  lemma {:induction false} PlacedRows(rs: seq<UserAttribute>, name: string)
    ensures multiset(Placed(rs, name)) == multiset(Filter(rs, InGroupOf(name)))
  {
    if rs != [] {
      var init, r := rs[..|rs| - 1], rs[|rs| - 1];
      PlacedRows(init, name);
      PyInsertCount(Placed(init, name), r.Priority(), r);
      assert rs == init + [r];
      FilterSnoc(init, r, InGroupOf(name));
    }
  }

  lemma PlacedSnoc(rs: seq<UserAttribute>, r: UserAttribute, name: string)
    ensures Placed(rs + [r], name)
            == if InGroup(r, name) then PyInsert(Placed(rs, name), r.Priority(), r) else Placed(rs, name)
  {
    assert (rs + [r])[..|rs|] == rs;
  }

  /** The rows without a group, in order. */
  function Ungrouped(rs: seq<UserAttribute>): seq<UserAttribute> {
    Filter(rs, IsUngrouped)
  }

  function EntryFor(rs: seq<UserAttribute>, g: AttributeGroup): Entry {
    Entry(g.name, GroupBucket(g.priority, g.displayLabel, Placed(rs, g.name)))
  }

  /** The entries of the groups `gs`, in the order of `gs`. */
  function GroupEntries(rs: seq<UserAttribute>, gs: seq<AttributeGroup>): (es: seq<Entry>)
    ensures |es| == |gs|
    ensures forall k | 0 <= k < |gs| :: es[k] == EntryFor(rs, gs[k])
  {
    if gs == [] then []
    else GroupEntries(rs, gs[..|gs| - 1]) + [EntryFor(rs, gs[|gs| - 1])]
  }

  /** The trailing 'ungrouped' entry, present only when it would not be empty. */
  function UngroupedPart(rs: seq<UserAttribute>): seq<Entry> {
    if Ungrouped(rs) == [] then [] else [Entry(UNGROUPED, UngroupedBucket(Ungrouped(rs)))]
  }

  /** The mapping `by_group` returns for rows already filtered and ordered by priority. */
  function Grouping(rs: seq<UserAttribute>): seq<Entry> {
    GroupEntries(rs, UsedGroups(rs)) + UngroupedPart(rs)
  }

  /**
   * The loop of `by_group`: one list per group in use, each row of a group
   * inserted at the index given by its priority (`list.insert`), each row
   * without a group appended to the ungrouped list.
   */
  method FillBuckets(result: seq<UserAttribute>, groups: seq<AttributeGroup>)
      returns (lists: map<string, seq<UserAttribute>>, ungrouped: seq<UserAttribute>)
    requires forall k | 0 <= k < |result| && result[k].Group().Some? :: result[k].Group().value in groups
    ensures forall g | g in groups :: g.name in lists && lists[g.name] == Placed(result, g.name)
    ensures ungrouped == Ungrouped(result)
  {
    lists := map g | g in groups :: g.name := [];
    ungrouped := [];
    var i := 0;
    while i < |result|
      invariant 0 <= i <= |result|
      invariant forall g | g in groups :: g.name in lists && lists[g.name] == Placed(result[..i], g.name)
      invariant ungrouped == Ungrouped(result[..i])
    {
      var att := result[i];
      assert result[..i + 1] == result[..i] + [att];
      FilterSnoc(result[..i], att, IsUngrouped);
      forall g | g in groups
        ensures Placed(result[..i + 1], g.name)
                == if InGroup(att, g.name) then PyInsert(Placed(result[..i], g.name), att.Priority(), att)
                   else Placed(result[..i], g.name)
      {
        PlacedSnoc(result[..i], att, g.name);
      }
      if att.Group().Some? {
        var name := att.Group().value.name;
        lists := lists[name := PyInsert(lists[name], att.Priority(), att)];
      } else {
        ungrouped := ungrouped + [att];
      }
      i := i + 1;
    }
    assert result[..i] == result;
  }

  /**
   * The `SortedDict` of `by_group`: for each group, in order, its name mapped to
   * its priority, its label and its filled list.
   */
  method GroupEntriesOf(result: seq<UserAttribute>, groups: seq<AttributeGroup>, lists: map<string, seq<UserAttribute>>)
      returns (es: seq<Entry>)
    requires forall g | g in groups :: g.name in lists && lists[g.name] == Placed(result, g.name)
    ensures es == GroupEntries(result, groups)
  {
    es := seq(|groups|, k requires 0 <= k < |groups| =>
      Entry(groups[k].name, GroupBucket(groups[k].priority, groups[k].displayLabel, lists[groups[k].name])));
    assert forall k | 0 <= k < |groups| :: es[k] == EntryFor(result, groups[k]);
  }

  /**
   * `by_group` on rows already filtered and ordered: an entry per group in use,
   * in group order, whose list the loop fills, then the 'ungrouped' entry only
   * if its list is not empty.
   */
  method GroupRows(result: seq<UserAttribute>) returns (grouped: seq<Entry>)
    requires WellNamed(result)
    ensures grouped == Grouping(result)
  {
    var groups := UsedGroups(result);
    var lists, ungrouped := FillBuckets(result, groups);
    grouped := GroupEntriesOf(result, groups, lists);
    if |ungrouped| > 0 {
      grouped := grouped + [Entry(UNGROUPED, UngroupedBucket(ungrouped))];
    }
  }

  // ---------------------------------------------------------------- what the mapping holds

  /** Every row of the mapping's values, bucket after bucket. */
  function Members(es: seq<Entry>): seq<UserAttribute> {
    if es == [] then [] else Members(es[..|es| - 1]) + es[|es| - 1].bucket.attributes
  }

  lemma MembersSnoc(es: seq<Entry>, e: Entry)
    ensures Members(es + [e]) == Members(es) + e.bucket.attributes
  {
    assert (es + [e])[..|es|] == es;
  }

  /**
   * A row occurs in the buckets of the groups `gs` as often as in the rows when
   * its group's name is one of theirs, and not at all otherwise.
   */
  lemma {:induction false} GroupEntriesCount(rs: seq<UserAttribute>, gs: seq<AttributeGroup>, x: UserAttribute)
    requires NoDuplicates(Names(gs))
    ensures multiset(Members(GroupEntries(rs, gs)))[x]
            == if x.Group().Some? && x.Group().value.name in Names(gs) then multiset(rs)[x] else 0
  {
    if gs != [] {
      var init, g := gs[..|gs| - 1], gs[|gs| - 1];
      assert Names(gs) == Names(init) + [g.name];
      assert NoDuplicates(Names(init)) by {
        assert forall i | 0 <= i < |Names(init)| :: Names(init)[i] == Names(gs)[i];
      }
      assert g.name !in Names(init) by {
        assert forall i | 0 <= i < |Names(init)| :: Names(init)[i] == Names(gs)[i];
      }
      GroupEntriesCount(rs, init, x);
      assert GroupEntries(rs, gs) == GroupEntries(rs, init) + [EntryFor(rs, g)];
      MembersSnoc(GroupEntries(rs, init), EntryFor(rs, g));
      PlacedRows(rs, g.name);
      FilterCount(rs, InGroupOf(g.name), x);
    }
  }

  /** A row occurs in the mapping's buckets as often as among the rows. */
  lemma GroupingCount(rs: seq<UserAttribute>, x: UserAttribute)
    requires WellNamed(rs)
    ensures multiset(Members(Grouping(rs)))[x] == multiset(rs)[x]
  {
    var gs := UsedGroups(rs);
    var es := GroupEntries(rs, gs);
    UsedGroupsAscending(rs);
    GroupEntriesCount(rs, gs, x);
    FilterCount(rs, IsUngrouped, x);
    if Ungrouped(rs) == [] {
      assert Grouping(rs) == es;
    } else {
      MembersSnoc(es, Entry(UNGROUPED, UngroupedBucket(Ungrouped(rs))));
    }
    if x in rs && x.Group().Some? {
      assert x.Group().value in gs;
      var k :| 0 <= k < |gs| && gs[k] == x.Group().value;
      assert Names(gs)[k] == x.Group().value.name;
    }
  }

  lemma SameCounts<T>(a: seq<T>, b: seq<T>)
    requires forall x :: multiset(a)[x] == multiset(b)[x]
    ensures multiset(a) == multiset(b)
  {
  }

  /**
   * Every row lands in exactly one bucket: the mapping's values together hold
   * the rows, each as often as it occurs, and nothing else.
   */
  lemma GroupingMembers(rs: seq<UserAttribute>)
    requires WellNamed(rs)
    ensures multiset(Members(Grouping(rs))) == multiset(rs)
  {
    var m := Members(Grouping(rs));
    forall x ensures multiset(m)[x] == multiset(rs)[x] {
      GroupingCount(rs, x);
    }
    SameCounts(m, rs);
  }

  /** There is an 'ungrouped' bucket exactly when some row has no group. */
  lemma UngroupedPresent(rs: seq<UserAttribute>)
    ensures (exists r | r in rs :: IsUngrouped(r)) <==> UngroupedPart(rs) != []
  {
    if r :| r in rs && IsUngrouped(r) {
      assert r in Ungrouped(rs);
    }
    if Ungrouped(rs) != [] {
      assert Ungrouped(rs)[0] in Ungrouped(rs);
    }
  }

  /**
   * The keys of the mapping: the names of the groups in use, in their
   * (priority, name) order, each with the group's priority and label and its
   * bucket; then 'ungrouped', holding the rows without a group in order,
   * exactly when there is such a row.
   */
  lemma GroupingLayout(rs: seq<UserAttribute>)
    ensures var es, gs := Grouping(rs), UsedGroups(rs);
            && |es| == |gs| + (if exists r | r in rs :: IsUngrouped(r) then 1 else 0)
            && (forall k | 0 <= k < |gs| ::
                  es[k] == Entry(gs[k].name, GroupBucket(gs[k].priority, gs[k].displayLabel, Placed(rs, gs[k].name))))
            && ((exists r | r in rs :: IsUngrouped(r)) ==>
                  es[|es| - 1] == Entry(UNGROUPED, UngroupedBucket(Ungrouped(rs))))
  {
    UngroupedPresent(rs);
  }

  /** No key of the mapping occurs twice. */
  lemma GroupingKeysDistinct(rs: seq<UserAttribute>)
    requires WellNamed(rs)
    ensures var es := Grouping(rs);
            forall i, j | 0 <= i < j < |es| :: es[i].key != es[j].key
  {
    var es, gs := Grouping(rs), UsedGroups(rs);
    UsedGroupsAscending(rs);
    forall i, j | 0 <= i < j < |es| ensures es[i].key != es[j].key {
      assert es[i].key == gs[i].name;
      if j < |gs| {
        assert es[j].key == gs[j].name;
      } else {
        assert gs[i] in gs;
      }
    }
  }

  /**
   * When every row of a group has a priority at least the number of rows, each
   * `insert` lands at the end, so the bucket keeps the order of the rows.
   */
  lemma {:induction false} PlacedInRowOrder(rs: seq<UserAttribute>, name: string)
    requires forall r | r in rs && InGroup(r, name) :: r.Priority() >= |rs|
    ensures Placed(rs, name) == Filter(rs, InGroupOf(name))
  {
    if rs != [] {
      var init, r := rs[..|rs| - 1], rs[|rs| - 1];
      assert rs == init + [r];
      PlacedInRowOrder(init, name);
      FilterSnoc(init, r, InGroupOf(name));
      if InGroup(r, name) {
        PyInsertPastEnd(Placed(init, name), r.Priority(), r);
      }
    }
  }

  // ---------------------------------------------------------------- by_group, by_group_all

  /**
   * The rows `by_group` fetches (the active ones) or `by_group_all` fetches
   * (all of them), ordered by attribute priority.
   */
  function ByGroupRows(recs: seq<UserAttribute>, includeInactive: bool): (rows: seq<UserAttribute>)
    ensures forall r | r in rows :: r in recs
    ensures forall r | r in recs :: multiset(rows)[r] == if includeInactive || r.active then multiset(recs)[r] else 0
    ensures SortedBy(rows, Attr, PriorityOnly)
  {
    PriorityOnlyIsTotal();
    if includeInactive then
      var rows := SortBy(recs, Attr, PriorityOnly);
      assert forall r | r in rows :: r in recs by {
        forall r | r in rows ensures r in recs {
          assert multiset(rows)[r] > 0;
        }
      }
      rows
    else
      FilterCounts(recs, IsActive);
      var rows := SortBy(Filter(recs, IsActive), Attr, PriorityOnly);
      assert forall r | r in rows :: r in Filter(recs, IsActive) by {
        forall r | r in rows ensures r in Filter(recs, IsActive) {
          assert multiset(rows)[r] > 0;
        }
      }
      rows
  }

  /** `by_group`: the active rows arranged by group. */
  method ByGroup(recs: seq<UserAttribute>) returns (grouped: seq<Entry>)
    requires WellNamed(ByGroupRows(recs, false))
    ensures grouped == Grouping(ByGroupRows(recs, false))
  {
    var result := ByGroupRows(recs, false);
    grouped := GroupRows(result);
  }

  /** `by_group_all`: every row, active or not, arranged by group. */
  method ByGroupAll(recs: seq<UserAttribute>) returns (grouped: seq<Entry>)
    requires WellNamed(ByGroupRows(recs, true))
    ensures grouped == Grouping(ByGroupRows(recs, true))
  {
    var result := ByGroupRows(recs, true);
    grouped := GroupRows(result);
  }

  /**
   * The buckets of `by_group` hold each active row as often as it was fetched
   * and no inactive row; those of `by_group_all` hold every row.
   */
  lemma ByGroupMembers(recs: seq<UserAttribute>, includeInactive: bool, x: UserAttribute)
    requires WellNamed(ByGroupRows(recs, includeInactive))
    ensures multiset(Members(Grouping(ByGroupRows(recs, includeInactive))))[x]
            == if includeInactive || x.active then multiset(recs)[x] else 0
  {
    var rows := ByGroupRows(recs, includeInactive);
    GroupingCount(rows, x);
    if x !in recs {
      assert x !in rows;
    }
  }

  /** A row is among the fetched rows exactly when it is one of the user's rows the query keeps. */
  lemma ByGroupRowsKept(recs: seq<UserAttribute>, includeInactive: bool, x: UserAttribute)
    ensures x in ByGroupRows(recs, includeInactive) <==> x in recs && (includeInactive || x.active)
  {
    var rows := ByGroupRows(recs, includeInactive);
    if x in recs {
      assert multiset(rows)[x] > 0 <==> (includeInactive || x.active);
    }
  }

  /** `by_group` (`by_group_all` when `includeInactive`) has a key for the group of every row it keeps. */
  lemma ByGroupKeysCover(recs: seq<UserAttribute>, includeInactive: bool, r: UserAttribute)
    requires r in recs && (includeInactive || r.active) && r.Group().Some?
    ensures var es := Grouping(ByGroupRows(recs, includeInactive));
            exists k | 0 <= k < |es| :: es[k].key == r.Group().value.name
  {
    var rows := ByGroupRows(recs, includeInactive);
    var gs := UsedGroups(rows);
    ByGroupRowsKept(recs, includeInactive, r);
    var k :| 0 <= k < |gs| && gs[k] == r.Group().value;
    GroupingKeyAt(rows, k);
  }

  /** The k-th key of the mapping names the k-th group in use. */
  lemma GroupingKeyAt(rs: seq<UserAttribute>, k: int)
    requires 0 <= k < |UsedGroups(rs)|
    ensures k < |Grouping(rs)| && Grouping(rs)[k].key == UsedGroups(rs)[k].name
  {
    var gs := UsedGroups(rs);
    assert Grouping(rs)[k] == GroupEntries(rs, gs)[k];
  }

  /** Every key of `by_group` other than 'ungrouped' names the group of a row it keeps. */
  lemma ByGroupKeysUsed(recs: seq<UserAttribute>, includeInactive: bool, k: int)
    requires var es := Grouping(ByGroupRows(recs, includeInactive));
             0 <= k < |es| && es[k].key != UNGROUPED
    ensures var es := Grouping(ByGroupRows(recs, includeInactive));
            exists r | r in recs && (includeInactive || r.active) :: InGroup(r, es[k].key)
  {
    var rows := ByGroupRows(recs, includeInactive);
    var es, gs := Grouping(rows), UsedGroups(rows);
    GroupingLayout(rows);
    UngroupedPresent(rows);
    assert k < |gs|;
    assert gs[k] in gs;
    var r :| r in rows && r.Group() == Some(gs[k]);
    ByGroupRowsKept(recs, includeInactive, r);
    assert InGroup(r, es[k].key);
  }

  /** `by_group` has the key 'ungrouped' exactly when some row it keeps has no group. */
  lemma ByGroupUngrouped(recs: seq<UserAttribute>, includeInactive: bool)
    requires WellNamed(ByGroupRows(recs, includeInactive))
    ensures var es := Grouping(ByGroupRows(recs, includeInactive));
            (exists k | 0 <= k < |es| :: es[k].key == UNGROUPED)
            <==> exists r | r in recs && (includeInactive || r.active) :: IsUngrouped(r)
  {
    var rows := ByGroupRows(recs, includeInactive);
    var es, gs := Grouping(rows), UsedGroups(rows);
    GroupingLayout(rows);
    UngroupedPresent(rows);
    forall k | 0 <= k < |gs| ensures es[k].key != UNGROUPED {
      assert gs[k] in gs;
      var r :| r in rows && r.Group() == Some(gs[k]);
    }
    forall r ensures r in rows <==> r in recs && (includeInactive || r.active) {
      ByGroupRowsKept(recs, includeInactive, r);
    }
  }

  // ---------------------------------------------------------------- examples

  lemma ExampleGroupsOf(a: UserAttribute, b: UserAttribute, c: UserAttribute, g: AttributeGroup)
    requires a.Group() == Some(g) && b.Group() == Some(g) && c.Group().None?
    ensures GroupsOf([a, b, c]) == [g, g]
  {
    assert [a, b, c][1..] == [b, c] && [b, c][1..] == [c] && [c][1..] == [];
    assert GroupsOf([c]) == [];
    assert GroupsOf([b, c]) == [g];
  }

  lemma ExampleUsedGroups(a: UserAttribute, b: UserAttribute, c: UserAttribute, g: AttributeGroup)
    requires a.Group() == Some(g) && b.Group() == Some(g) && c.Group().None?
    ensures UsedGroups([a, b, c]) == [g]
  {
    ExampleGroupsOf(a, b, c, g);
    DistinctPair(g);
    PriorityThenNameIsTotal();
    SortBySingleton(g, GroupItself, PriorityThenName);
  }

  lemma ExamplePlaced(a: UserAttribute, b: UserAttribute, c: UserAttribute, g: AttributeGroup)
    requires a.Group() == Some(g) && b.Group() == Some(g) && c.Group().None?
    requires a.Priority() == 1 && b.Priority() == 2
    ensures Placed([a, b, c], g.name) == [a, b]
  {
    assert Placed([a], g.name) == [a] by {
      PlacedSnoc([], a, g.name);
      assert [] + [a] == [a];
      PyInsertPastEnd([], 1, a);
    }
    assert Placed([a, b], g.name) == [a, b] by {
      PlacedSnoc([a], b, g.name);
      assert [a] + [b] == [a, b];
      PyInsertPastEnd([a], 2, b);
    }
    PlacedSnoc([a, b], c, g.name);
    assert [a, b] + [c] == [a, b, c];
  }

  /**
   * Two rows of one group, with priorities 1 and 2, and a row without a group:
   * the group's bucket holds its two rows in order, and the 'ungrouped' bucket
   * comes last.
   */
  lemma GroupingExample(a: UserAttribute, b: UserAttribute, c: UserAttribute, g: AttributeGroup)
    requires a.Group() == Some(g) && b.Group() == Some(g) && c.Group().None?
    requires a.Priority() == 1 && b.Priority() == 2
    ensures Grouping([a, b, c])
            == [Entry(g.name, GroupBucket(g.priority, g.displayLabel, [a, b])), Entry(UNGROUPED, UngroupedBucket([c]))]
  {
    ExampleUsedGroups(a, b, c, g);
    ExamplePlaced(a, b, c, g);
    ExampleUngrouped(a, b, c);
    assert GroupEntries([a, b, c], [g]) == [EntryFor([a, b, c], g)];
  }

  lemma ExampleUngrouped(a: UserAttribute, b: UserAttribute, c: UserAttribute)
    requires a.Group().Some? && b.Group().Some? && c.Group().None?
    ensures Ungrouped([a, b, c]) == [c]
  {
    assert [a, b, c][1..] == [b, c] && [b, c][1..] == [c] && [c][1..] == [];
    assert Filter([c], IsUngrouped) == [c];
    assert Filter([b, c], IsUngrouped) == [c];
  }

  /**
   * Positional insertion does not order a bucket by priority when priorities tie
   * or are smaller than the bucket: rows fetched in priority order 0, 0, 1 end
   * up as the second, the third, then the first.
   */
  lemma PlacedTieExample(y: UserAttribute, z: UserAttribute, x: UserAttribute, name: string)
    requires InGroup(y, name) && InGroup(z, name) && InGroup(x, name)
    requires y.Priority() == 0 && z.Priority() == 0 && x.Priority() == 1
    ensures Placed([y, z, x], name) == [z, x, y]
  {
    PyInsertTies(y, z, x);
    assert Placed([y], name) == [y] by {
      PlacedSnoc([], y, name);
      assert [] + [y] == [y];
    }
    assert Placed([y, z], name) == [z, y] by {
      PlacedSnoc([y], z, name);
      assert [y] + [z] == [y, z];
    }
    PlacedSnoc([y, z], x, name);
    assert [y, z] + [x] == [y, z, x];
  }
}
