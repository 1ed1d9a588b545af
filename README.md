# Attribute aggregation of `exist`, modelled in Dafny

This project models the decision logic of the `exist` web application's
`exist/core/models.py`: the typed data point of a tracked attribute, the current
value of a user's attribute, and the queries of `UserAttributeManager` that
aggregate one user's attributes. These are `high_priority`,
`public_high_priority`, `score`, `active`, `by_name`, `public_by_name`,
`by_group` and `by_group_all`. It also models the username validator
`^[\w]+$`.

A user's attribute rows are an in-memory sequence, in the order the store
returned them. The store's `filter`/`exclude` becomes `Sorting.Filter`, and its
`order_by` becomes `Sorting.SortBy`, a stable insertion sort by a key under a
total preorder.

Modules:

- `wrappers.dfy` (`Wrappers`): `Option`, plus `Result` carrying the Python
  exceptions the modelled code can raise (`TypeError`, `IndexError`).
- `sorting.dfy` (`Sorting`): filtering, stable sorting, first occurrences
  (`id__in`), and code-point string order, with their lemmas.
- `pylist.dfy` (`PyList`): Python's `list.insert(i, x)`, including negative and
  out-of-range indices.
- `values.dfy` (`Values`): the value-type codes and labels, and the class
  `UserAttributeData`. It has three storage slots, selected by its own
  `value_type` code. `SetValue` mutates the object; `Value` reads it.
- `attributes.dfy` (`Attributes`): `AttributeGroup`, `Attribute` and
  `UserAttribute` as values. It also holds the latest data point of a series
  and `UserAttribute.value`.
- `orderings.dfy` (`Orderings`): the four sort orders the manager asks for, each
  proved to be a total preorder. NULL group priorities sort first, as on MySQL,
  the backend the application's raw SQL is written for (`LIMIT 0, %s`,
  `exist/core/models.py:408`).
- `manager.dfy` (`Manager`): the filters, `score`, `active`, `by_name` and
  `public_by_name`.
- `grouping.dfy` (`Grouping`): `by_group` and `by_group_all`.
  - The bucket-filling loop is a method over a map of lists.
  - The method is proved equal to a functional description, `Grouping`, of the
    ordered mapping.
  - Lemmas about `Grouping` cover its keys, its buckets and its order.
- `username.dfy` (`Username`): the validator as a decision function, proved
  equal to a declarative reading of the pattern.

Three behaviours of the code are easy to miss, and the model keeps them:

- `score` sums whatever the latest data point holds. The exclusion of STRING
  attributes tests the attribute's code, but the value is read through the data
  point's own code. A string value therefore makes Python's `sum` raise
  `TypeError`, and `Score` returns `Err(TypeError)` in that case.
- The data point keeps three nullable slots next to a code, and reads and
  writes the one its own code selects.
- `$` in Python's `re` also matches just before a final newline, so `"jo\n"` is
  a valid username.

## Model

| member | source | states |
|---|---|---|
| Values.ValueTypeDescription | exist/core/models.py:58-66 | `VALUE_TYPES[code][1]`: succeeds exactly for codes -7..6; codes 0..6 give their own label, a negative code counts from the end; any other code is `IndexError` |
| Values.SlotOf | exist/core/models.py:257-290 | the slot a code selects: some slot exactly for codes 0..6, the string slot exactly for STRING, the decimal slot exactly for FLOAT and PERCENTAGE (the int slot for the rest) |
| Values.UserAttributeData.constructor | exist/core/models.py:247-254 | a new data point has the given day and code and three empty slots |
| Values.UserAttributeData.Value | exist/core/models.py:256-274 | `value` reads the slot the stored code selects (codes 0,3,4,6 the int slot; 1,5 the decimal slot; 2 the string slot) and is None for any other code |
| Values.UserAttributeData.SetValue | exist/core/models.py:276-290 | `set_value` writes only the slot the code selects and leaves the other slots, the day and the code unchanged; for codes 0..6 `Value()` then returns the written value; for any other code nothing changes and `Value()` is None |
| Attributes.UserAttribute.Label | exist/core/models.py:199-201 | a user attribute's label is its attribute's label |
| Attributes.UserAttribute.Name | exist/core/models.py:203-205 | a user attribute's name is its attribute's name, the key of `by_name` |
| Attributes.UserAttribute.Priority | exist/core/models.py:207-209 | a user attribute's priority is its attribute's priority, the index `by_group` inserts at |
| Attributes.UserAttribute.ValueType | exist/core/models.py:211-213 | a user attribute's value-type code is its attribute's code |
| Attributes.UserAttribute.Group | exist/core/models.py:227-233 | a user attribute's group is its attribute's group, None when it has none |
| Attributes.UserAttribute.ValueTypeDescription | exist/core/models.py:214-217 | a user attribute's description succeeds exactly for attribute codes -7..6: codes 0..6 give their own label, a negative code counts from the end of the tuple, any other code is `IndexError` |
| Attributes.Latest | exist/core/models.py:296 | the first data point under the `-time` ordering: None exactly for an empty series, otherwise a point of the series whose day is not before any other |
| Attributes.LatestUnique | exist/core/models.py:296-297 | with one point per day (the `unique_together` constraint), the latest point is the unique point with the greatest day |
| Attributes.CurrentValue | exist/core/models.py:219-225 | `UserAttribute.value` is None for an empty series and otherwise the value of the latest data point |
| Attributes.CurrentValueIsLatest | exist/core/models.py:219-225 | with one point per day, the current value is the value of the point with the greatest day |
| PyList.InsertPosition | exist/core/models.py:155 | the index `list.insert(i, x)` uses is always within 0..len |
| PyList.PyInsert | exist/core/models.py:155 | `list.insert(i, x)`: one more element, x at the clamped position, the elements before and after it kept in order |
| PyList.PyInsertCount | exist/core/models.py:155 | an insert adds x to the list's elements and removes none |
| PyList.PyInsertPastEnd | exist/core/models.py:155 | an index at or past the length appends |
| PyList.PyInsertBeforeStart | exist/core/models.py:155 | an index at or before minus the length prepends |
| PyList.PyInsertFromEnd | exist/core/models.py:155 | a negative index within range counts from the end: x lands at `len + i` |
| PyList.PyInsertTies | exist/core/models.py:155 | inserting a, then b at 0, then c at 1 gives [b, c, a] |
| Sorting.Filter | exist/core/models.py:109-111 | a queryset filter keeps exactly the rows satisfying the condition and no others |
| Sorting.FilterCount | exist/core/models.py:109-111 | a filter keeps every occurrence of a row that satisfies the condition and none of a row that does not |
| Sorting.SortBy | exist/core/models.py:111 | `order_by` returns a permutation of its input, sorted by the key |
| Sorting.InsertSorted | exist/core/models.py:111 | one step of the sort keeps the sequence sorted |
| Sorting.FilterSortBy | exist/core/models.py:115-116 | filtering an ordered queryset gives the same rows, in the same order, as ordering the filtered queryset |
| Sorting.SortByStable | exist/core/models.py:111 | rows with equivalent keys keep the order in which they were fetched |
| Sorting.FilterFilter | exist/core/models.py:115-116 | two successive filters are the filter by both conditions |
| Sorting.Distinct | exist/core/models.py:146-148 | `id__in` returns each used value once: the same values as the list, and no duplicates |
| Sorting.NoDuplicatesPermutation | exist/core/models.py:148 | reordering a list without duplicates keeps it without duplicates |
| Sorting.StrLeTotal | exist/core/models.py:148 | any two names are comparable in the name order |
| Sorting.StrLeTransitive | exist/core/models.py:148 | the name order is transitive |
| Sorting.StrLeAntisymmetric | exist/core/models.py:148 | two names each at most the other are equal |
| Orderings.GroupThenPriority | exist/core/models.py:111 | `order_by('attribute__group__priority', 'attribute__priority')`: an attribute without a group comes before every attribute with one, and never after it |
| Orderings.PriorityOnly | exist/core/models.py:145 | `order_by('attribute__priority')`: ascending attribute priority; its totality is proved by `PriorityOnlyIsTotal` |
| Orderings.DefaultOrder | exist/core/models.py:244 | the default ordering (group priority, priority, name): an attribute without a group comes before every attribute with one, and never after it |
| Orderings.PriorityThenName | exist/core/models.py:148 | `order_by('priority', 'name')` on groups: by priority, ties by name; its totality is proved by `PriorityThenNameIsTotal` |
| Orderings.GroupThenPriorityIsTotal | exist/core/models.py:111 | ordering by (group priority with NULL first, attribute priority) is a total preorder |
| Orderings.PriorityOnlyIsTotal | exist/core/models.py:145 | ordering by attribute priority is a total preorder |
| Orderings.DefaultOrderIsTotal | exist/core/models.py:244 | the default ordering by (group priority, priority, name) is a total preorder |
| Orderings.PriorityThenNameIsTotal | exist/core/models.py:148 | ordering groups by (priority, name) is a total preorder |
| Manager.IsHighPriority | exist/core/models.py:109-111 | the condition of `high_priority`: active, priority at most 9, attribute type not STRING; `HighPriority` proves the query keeps exactly the rows meeting it |
| Manager.HighPriority | exist/core/models.py:107-113 | `high_priority` holds exactly the active rows with priority at most 9 whose attribute is not STRING, each as often as fetched, sorted by (group priority, priority) |
| Manager.PublicHighPriority | exist/core/models.py:115-117 | `public_high_priority` holds exactly the high-priority rows that are not private, and equals `high_priority` over the user's public rows |
| Manager.Plus | exist/core/models.py:105 | Python's `+` on the running sum: it fails exactly when the sum has already failed or the value is a string (TypeError), and otherwise adds the value's amount exactly |
| Manager.SumValues | exist/core/models.py:104-105 | `sum(scores)`: the non-None current values added left to right from 0; what it computes is proved by `SumValuesMeaning` |
| Manager.SumValuesMeaning | exist/core/models.py:104-105 | Python's left-to-right `sum` of the non-None values raises TypeError exactly when one value is a string, and otherwise is the exact total |
| Manager.TotalLast | exist/core/models.py:104-105 | the total of a non-empty list is the total of all but the last row plus the last row's amount |
| Manager.TextLast | exist/core/models.py:104-105 | some row holds text exactly when the last row or one of the rows before it does |
| Manager.AddNumber | exist/core/models.py:105 | adding a value to a number gives TypeError for text and the number plus the value's amount otherwise |
| Manager.TotalSortBy | exist/core/models.py:103-105 | the total does not depend on the order of the rows |
| Manager.Score | exist/core/models.py:102-105 | `score` is TypeError exactly when a high-priority row's current value is a string, and otherwise the exact total of the high-priority rows' numeric values, rows without a value contributing nothing |
| Manager.ScoreIgnores | exist/core/models.py:102-105 | adding a row that is not high-priority, or has no value, leaves the score unchanged |
| Manager.ScoreWithoutValues | exist/core/models.py:102-105 | when no high-priority row has a value, the score is 0 |
| Manager.Active | exist/core/models.py:119-123 | `active` holds exactly the active rows, each as often as fetched, in the default ordering of exist/core/models.py:244 |
| Manager.NameMap | exist/core/models.py:129 | the dict built from (name, row) pairs has a key for every row's name, and maps each key to a row of that name |
| Manager.NameMapLast | exist/core/models.py:129 | a name maps to the last row that carries it (later pairs overwrite earlier ones) |
| Manager.LastRowWins | exist/core/models.py:129 | every row that no later row shares a name with is the row its name maps to |
| Manager.ByName | exist/core/models.py:126-131 | `by_name` has a key for every active row's name, maps each key to an active row of that name, and a name shared by several active rows maps to the last of them in the default ordering |
| Manager.PublicActive | exist/core/models.py:135 | the rows `public_by_name` fetches are exactly the active, non-private rows, each as often as stored, in the default ordering |
| Manager.PublicByName | exist/core/models.py:133-138 | `public_by_name` has a key for every active, non-private row's name, maps each key to such a row of that name, and a shared name maps to the last of those rows in the default ordering |
| Grouping.GroupsOf | exist/core/models.py:146 | `used_groups` lists the group of every grouped row, and only groups of rows |
| Grouping.UsedGroups | exist/core/models.py:146-148 | the groups queried are those the rows use, each once, sorted by (priority, name) |
| Grouping.UsedGroupsAscending | exist/core/models.py:148-149 | with unique group names, the groups are in strictly ascending (priority, name) order and their names are distinct |
| Grouping.Placed | exist/core/models.py:153-155 | the bucket of one group after the loop: each row of the group inserted with `list.insert(priority, row)`, in fetched order; `PlacedRows`, `PlacedSnoc`, `PlacedInRowOrder` and `PlacedTieExample` state what it holds |
| Grouping.PlacedRows | exist/core/models.py:153-155 | a group's bucket holds exactly the rows of that group, each as often as it occurs |
| Grouping.PlacedSnoc | exist/core/models.py:153-157 | one loop step inserts the row into its own group's bucket at its priority and leaves every other bucket as it was |
| Grouping.PlacedInRowOrder | exist/core/models.py:155 | when every row of a group has a priority at least the number of rows, each insert appends, so the bucket keeps the rows' order |
| Grouping.PlacedTieExample | exist/core/models.py:155 | any three rows of one group fetched with priorities 0, 0, 1 end up as the second, the third, then the first row: ties are reversed and the bucket is not in priority order |
| Grouping.FillBuckets | exist/core/models.py:151-157 | the loop leaves, for every group in use, the bucket of positional inserts, and the ungrouped rows in order |
| Grouping.GroupEntriesOf | exist/core/models.py:149 | the entries built from the filled lists are the entries `Grouping` describes for the groups in use |
| Grouping.GroupRows | exist/core/models.py:146-161 | given fetched rows with unique group names, the method returns the ordered mapping `Grouping` describes |
| Grouping.Grouping | exist/core/models.py:146-161 | the ordered mapping `by_group` returns: one entry per group in use, then 'ungrouped' when non-empty; `GroupRows` is proved equal to it and `GroupingLayout`, `GroupingMembers` and `GroupingKeysDistinct` state its shape |
| Grouping.GroupEntriesCount | exist/core/models.py:149-155 | a row occurs in the group buckets as often as among the rows when its group is one of the keys, and not at all otherwise |
| Grouping.GroupingCount | exist/core/models.py:149-161 | every row occurs in the buckets as often as among the rows |
| Grouping.GroupingMembers | exist/core/models.py:149-161 | every row lands in exactly one bucket: the buckets together are a permutation of the rows |
| Grouping.UngroupedPresent | exist/core/models.py:159-160 | the 'ungrouped' entry exists exactly when some row has no group |
| Grouping.GroupingLayout | exist/core/models.py:149-160 | the entries are the groups in use, in (priority, name) order, with priority, label and bucket, then 'ungrouped' last, holding the ungrouped rows in order, exactly when some row has no group |
| Grouping.GroupingKeysDistinct | exist/core/models.py:149-160 | with unique group names, no key occurs twice |
| Grouping.ByGroupRows | exist/core/models.py:145 | the rows fetched are exactly the active rows (all rows for `by_group_all`), each as often as stored, sorted by attribute priority |
| Grouping.ByGroupRowsKept | exist/core/models.py:145 | a row is fetched exactly when it is one of the user's rows and active, or any row for `by_group_all` |
| Grouping.ByGroup | exist/core/models.py:140-161 | `by_group` returns the mapping of the active rows ordered by priority |
| Grouping.ByGroupAll | exist/core/models.py:163-185 | `by_group_all` returns the mapping of all rows ordered by priority |
| Grouping.ByGroupMembers | exist/core/models.py:145-161 | the buckets of `by_group` hold each active row as often as stored and no inactive row; those of `by_group_all` hold every row |
| Grouping.GroupingKeyAt | exist/core/models.py:148-149 | the k-th key of the mapping is the name of the k-th group in (priority, name) order |
| Grouping.ByGroupKeysCover | exist/core/models.py:146-149 | there is a key for the group of every kept grouped row |
| Grouping.ByGroupKeysUsed | exist/core/models.py:146-149 | every key other than 'ungrouped' names the group of a kept row |
| Grouping.ByGroupUngrouped | exist/core/models.py:159-160 | 'ungrouped' is a key exactly when some kept row has no group |
| Grouping.GroupingExample | exist/core/models.py:140-161 | for any rows a, b of a group g (priorities 1, 2) and an ungrouped row c, the mapping is `{g: [a, b], ungrouped: [c]}` in that key order |
| Username.IsValidUsername | exist/core/models.py:45 | the validator accepts a name exactly when it is one or more ASCII word characters, optionally followed by one final newline |
| Username.UsernameExamples | exist/core/models.py:45 | `jo_2` and `jo` plus a newline are accepted; the empty name, a lone newline, a name with a space and a name with two final newlines are rejected |

## Left out

- `UserLogManager` (raw SQL with a date range from the wall clock), `User.auth_hash` (SHA-1 over a secret setting), `Profile.concrete_model`/`Profile.concrete` (dynamic import) and `Service.types` (a relation not defined in the file) are not part of this model: they are I/O, foreign calls or runtime reflection.
- The memoisation of `high_priority`, `active`, `by_name` and `public_by_name` in manager fields is left out. It is an optimisation that returns what a fresh call would, and an empty result is never cached.
- The ORM itself (query building, `prefetch_related`, `select_related`) is left out. Rows are given as sequences, and sort ties keep the fetched order, which the database leaves open.
- Grouping.GroupRows, Grouping.ByGroup and Grouping.ByGroupAll: two groups sharing a name, or a group named 'ungrouped', among the rows fetched are excluded by the precondition `WellNamed`. The collision behaviour of the ordered dict is not modelled.
- Grouping.GroupRows: the mapping's entries are built after the loop from the filled lists. Python builds the dict first and fills its lists in place through shared references; the resulting mapping is the same.
- Values.UserAttributeData.SetValue: the column types applied when the row is saved are not modelled. A slot holds whatever value was assigned.
- Manager.Score: Decimal arithmetic is exact `real` arithmetic. The 16-digit, 4-decimal precision of `float_value` is not modelled, and the int/Decimal distinction of the result is dropped.
- The string order of group and attribute names is code-point order. The database collation is not modelled.
- `Username.IsValidUsername` covers only the pattern. Django's own length limit on usernames is left out.
- `available_services`, `__str__` methods, `attribute_types` and the correlation fields of `Attribute` are left out: they are queries or display code outside the aggregation.
- Migrations, the admin configuration and the REST views, URLs and serializers are left out: they are declarative or thin wrappers.
