/**
 * `UserAttributeManager`: the queries over one user's attribute rows, with the
 * rows given as an in-memory sequence in the order the store returned them.
 */
module Manager {
  import opened Wrappers
  import opened Sorting
  import opened Values
  import opened Attributes
  import opened Orderings

  predicate IsActive(r: UserAttribute) {
    r.active
  }

  predicate IsPublicActive(r: UserAttribute) {
    r.active && !r.private
  }

  /** The condition of `high_priority`: active, priority at most 9, not a string attribute. */
  predicate IsHighPriority(r: UserAttribute) {
    r.active && r.Priority() <= 9 && r.ValueType() != STRING
  }

  predicate IsPublicHighPriority(r: UserAttribute) {
    IsHighPriority(r) && !r.private
  }

  predicate IsPublic(r: UserAttribute) {
    !r.private
  }

  // ---------------------------------------------------------------- high_priority

  /**
   * `high_priority`: exactly the high-priority rows, each as often as it was
   * fetched, ordered by group priority (no group first) and then priority.
   */
  function HighPriority(recs: seq<UserAttribute>): (hp: seq<UserAttribute>)
    ensures forall r | r in hp :: r in recs
    ensures forall r | r in recs :: multiset(hp)[r] == if IsHighPriority(r) then multiset(recs)[r] else 0
    ensures SortedBy(hp, Attr, GroupThenPriority)
  {
    GroupThenPriorityIsTotal();
    FilterCounts(recs, IsHighPriority);
    var hp := SortBy(Filter(recs, IsHighPriority), Attr, GroupThenPriority);
    assert forall r | r in hp :: r in Filter(recs, IsHighPriority) by {
      forall r | r in hp ensures r in Filter(recs, IsHighPriority) {
        assert multiset(hp)[r] > 0;
      }
    }
    hp
  }

  /**
   * `public_high_priority`: the high-priority rows that are not private, in the
   * same order: what `high_priority` gives for the user's public rows alone.
   */
  function PublicHighPriority(recs: seq<UserAttribute>): (php: seq<UserAttribute>)
    ensures forall r | r in php :: r in recs
    ensures forall r | r in recs :: multiset(php)[r] == if IsPublicHighPriority(r) then multiset(recs)[r] else 0
    ensures php == HighPriority(Filter(recs, IsPublic))
  {
    GroupThenPriorityIsTotal();
    var hp := HighPriority(recs);
    var php := Filter(hp, IsPublic);
    FilterSortBy(Filter(recs, IsHighPriority), Attr, GroupThenPriority, IsPublic);
    FilterFilter(recs, IsHighPriority, IsPublic, IsPublicHighPriority);
    FilterFilter(recs, IsPublic, IsHighPriority, IsPublicHighPriority);
    FilterCounts(recs, IsPublicHighPriority);
    assert forall r | r in php :: r in recs by {
      forall r | r in php ensures r in recs {
        assert r in hp;
      }
    }
    php
  }

  // ---------------------------------------------------------------- score

  /** Python's `acc + v` for a numeric `acc`: numbers add exactly, a string raises TypeError. */
  function Plus(acc: Result<real>, v: Scalar): (r: Result<real>)
    ensures r.Ok? <==> acc.Ok? && !v.StrV?
    ensures r.Err? ==> r.error == (if acc.Err? then acc.error else TypeError)
    ensures r.Ok? ==> r.value == acc.value + Amount(Some(v))
  {
    match acc
    case Err(e) => Err(e)
    case Ok(a) =>
      match v
      case IntV(i) => Ok(a + i as real)
      case DecimalV(d) => Ok(a + d)
      case StrV(_) => Err(TypeError)
  }

  /** `sum([att.value for att in rs if att.value is not None])`: from 0, left to right. */
  function SumValues(rs: seq<UserAttribute>): Result<real>
    reads DataOf(rs)
  {
    if rs == [] then Ok(0.0)
    else
      var init := rs[..|rs| - 1];
      assert DataOf(init) <= DataOf(rs) && forall d | d in rs[|rs| - 1].data :: d in DataOf(rs) by {
        assert forall r | r in init :: r in rs;
        assert rs[|rs| - 1] in rs;
      }
      var v := CurrentValue(rs[|rs| - 1]);
      var acc := SumValues(init);
      if v.None? then acc else Plus(acc, v.value)
  }

  /** A current value that is a string. */
  predicate IsText(v: Option<Scalar>) {
    v.Some? && v.value.StrV?
  }

  /** The number a current value contributes to a sum; nothing for None. */
  function Amount(v: Option<Scalar>): real {
    match v
    case Some(IntV(i)) => i as real
    case Some(DecimalV(d)) => d
    case _ => 0.0
  }

  /** The exact total of the numeric current values of `rs`, in any order. */
  function Total(rs: seq<UserAttribute>): real
    reads DataOf(rs)
  {
    if rs == [] then 0.0
    else
      assert DataOf(rs[1..]) <= DataOf(rs) && forall d | d in rs[0].data :: d in DataOf(rs) by {
        assert forall r | r in rs[1..] :: r in rs;
        assert rs[0] in rs;
      }
      Amount(CurrentValue(rs[0])) + Total(rs[1..])
  }

  lemma {:induction false} TotalLast(rs: seq<UserAttribute>)
    requires rs != []
    ensures Total(rs) == Total(rs[..|rs| - 1]) + Amount(CurrentValue(rs[|rs| - 1]))
  {
    if |rs| > 1 {
      TotalLast(rs[1..]);
      assert rs[1..][..|rs| - 2] == rs[..|rs| - 1][1..];
    }
  }

  /**
   * Python's left-to-right `sum` raises TypeError as soon as one value is a
   * string, and otherwise is the exact total of the numbers.
   */
  lemma {:induction false} SumValuesMeaning(rs: seq<UserAttribute>)
    ensures (exists r | r in rs :: IsText(CurrentValue(r))) ==> SumValues(rs) == Err(TypeError)
    ensures (forall r | r in rs :: !IsText(CurrentValue(r))) ==> SumValues(rs) == Ok(Total(rs))
  {
    if rs != [] {
      var init := rs[..|rs| - 1];
      SumValuesMeaning(init);
      TextLast(rs);
      if exists r | r in init :: IsText(CurrentValue(r)) {
        SumAfterError(rs);
      } else {
        var last := CurrentValue(rs[|rs| - 1]);
        assert SumValues(init) == Ok(Total(init));
        SumAfterNumbers(rs, Total(init));
        AddNumber(Total(init), last);
        if IsText(last) {
          assert SumValues(rs) == Err(TypeError);
        } else {
          TotalLast(rs);
          assert SumValues(rs) == Ok(Total(rs));
        }
      }
    }
  }

  /** Once the sum of the rows before the last has failed, the whole sum fails. */
  lemma SumAfterError(rs: seq<UserAttribute>)
    requires rs != [] && SumValues(rs[..|rs| - 1]) == Err(TypeError)
    ensures SumValues(rs) == Err(TypeError)
  {
  }

  /** After a numeric sum `t` of the rows before the last, the last row's text fails and its number adds. */
  lemma SumAfterNumbers(rs: seq<UserAttribute>, t: real)
    requires rs != [] && SumValues(rs[..|rs| - 1]) == Ok(t)
    ensures SumValues(rs) == AddValue(Ok(t), CurrentValue(rs[|rs| - 1]))
  {
  }

  /** One step of the sum: a present value is added to the accumulator, an absent one skipped. */
  function AddValue(acc: Result<real>, v: Option<Scalar>): Result<real> {
    if v.None? then acc else Plus(acc, v.value)
  }

  /** Adding to a number gives TypeError for text, and otherwise the number plus the value's amount. */
  lemma AddNumber(t: real, v: Option<Scalar>)
    ensures AddValue(Ok(t), v) == if IsText(v) then Err(TypeError) else Ok(t + Amount(v))
  {
  }

  /** Some row of a non-empty `rs` holds text exactly when some row before the last or the last does. */
  lemma TextLast(rs: seq<UserAttribute>)
    requires rs != []
    ensures (exists r | r in rs :: IsText(CurrentValue(r)))
       <==> (exists r | r in rs[..|rs| - 1] :: IsText(CurrentValue(r))) || IsText(CurrentValue(rs[|rs| - 1]))
  {
    assert forall r | r in rs :: r in rs[..|rs| - 1] || r == rs[|rs| - 1];
    assert forall r | r in rs[..|rs| - 1] :: r in rs;
    assert rs[|rs| - 1] in rs;
  }

  lemma {:induction false} TotalInsert<K(!new)>(x: UserAttribute, t: seq<UserAttribute>, key: UserAttribute -> K, le: (K, K) -> bool)
    ensures Total(Insert(x, t, key, le)) == Amount(CurrentValue(x)) + Total(t)
  {
    if t != [] && !le(key(x), key(t[0])) {
      TotalInsert(x, t[1..], key, le);
      assert Insert(x, t, key, le) == [t[0]] + Insert(x, t[1..], key, le);
      assert ([t[0]] + Insert(x, t[1..], key, le))[1..] == Insert(x, t[1..], key, le);
    } else {
      assert ([x] + t)[1..] == t;
    }
  }

  /** The total does not depend on the order of the rows. */
  lemma {:induction false} TotalSortBy<K(!new)>(s: seq<UserAttribute>, key: UserAttribute -> K, le: (K, K) -> bool)
    requires TotalPreorder(le)
    ensures Total(SortBy(s, key, le)) == Total(s)
  {
    if s != [] {
      TotalSortBy(s[1..], key, le);
      TotalInsert(s[0], SortBy(s[1..], key, le), key, le);
    }
  }

  /**
   * `score`: TypeError exactly when some high-priority row's current value is a
   * string; otherwise the exact total of the high-priority rows' numeric current
   * values, rows without a value contributing nothing.  The ordering of
   * `high_priority` does not affect it.
   */
  function Score(recs: seq<UserAttribute>): (r: Result<real>)
    reads DataOf(recs)
    ensures r == if exists x | x in recs :: IsHighPriority(x) && IsText(CurrentValue(x))
                 then Err(TypeError)
                 else Ok(Total(Filter(recs, IsHighPriority)))
  {
    var hp := HighPriority(recs);
    assert DataOf(hp) <= DataOf(recs) by {
      assert forall x | x in hp :: x in recs;
    }
    GroupThenPriorityIsTotal();
    SumValuesMeaning(hp);
    TotalSortBy(Filter(recs, IsHighPriority), Attr, GroupThenPriority);
    assert forall x | x in recs && IsHighPriority(x) :: x in hp by {
      forall x | x in recs && IsHighPriority(x) ensures x in hp {
        assert multiset(hp)[x] > 0;
      }
    }
    SumValues(hp)
  }

  /** Adding a row that is not high-priority, or that has no value, leaves the score as it was. */
  lemma ScoreIgnores(recs: seq<UserAttribute>, x: UserAttribute)
    requires !IsHighPriority(x) || CurrentValue(x).None?
    ensures Score(recs + [x]) == Score(recs)
  {
    IgnoredInTotal(recs, x);
    IgnoredInText(recs, x);
  }

  lemma IgnoredInTotal(recs: seq<UserAttribute>, x: UserAttribute)
    requires !IsHighPriority(x) || CurrentValue(x).None?
    ensures Total(Filter(recs + [x], IsHighPriority)) == Total(Filter(recs, IsHighPriority))
  {
    var f := Filter(recs, IsHighPriority);
    FilterSnoc(recs, x, IsHighPriority);
    if IsHighPriority(x) {
      TotalLast(f + [x]);
      assert (f + [x])[..|f|] == f;
      assert (f + [x])[|f|] == x;
    } else {
      assert f + [] == f;
    }
  }

  lemma IgnoredInText(recs: seq<UserAttribute>, x: UserAttribute)
    requires !IsHighPriority(x) || CurrentValue(x).None?
    ensures (exists y | y in recs + [x] :: IsHighPriority(y) && IsText(CurrentValue(y)))
       <==> (exists y | y in recs :: IsHighPriority(y) && IsText(CurrentValue(y)))
  {
    assert forall y | y in recs + [x] :: y in recs || y == x;
    assert forall y | y in recs :: y in recs + [x];
  }

  /** With no high-priority row holding a value, the score is 0. */
  lemma ScoreWithoutValues(recs: seq<UserAttribute>)
    requires forall x | x in recs && IsHighPriority(x) :: CurrentValue(x).None?
    ensures Score(recs) == Ok(0.0)
  {
    NoAmounts(Filter(recs, IsHighPriority));
  }

  lemma {:induction false} NoAmounts(rs: seq<UserAttribute>)
    requires forall x | x in rs :: CurrentValue(x).None?
    ensures Total(rs) == 0.0
  {
    if rs != [] {
      assert rs[0] in rs;
      NoAmounts(rs[1..]);
    }
  }

  // ---------------------------------------------------------------- active, by_name

  /** `active`: the active rows, each as often as fetched, in the default ordering. */
  function Active(recs: seq<UserAttribute>): (a: seq<UserAttribute>)
    ensures forall r | r in a :: r in recs && r.active
    ensures forall r | r in recs :: multiset(a)[r] == if r.active then multiset(recs)[r] else 0
    ensures SortedBy(a, Attr, DefaultOrder)
  {
    DefaultOrderIsTotal();
    FilterCounts(recs, IsActive);
    var a := SortBy(Filter(recs, IsActive), Attr, DefaultOrder);
    assert forall r | r in a :: r in Filter(recs, IsActive) by {
      forall r | r in a ensures r in Filter(recs, IsActive) {
        assert multiset(a)[r] > 0;
      }
    }
    a
  }

  /** `dict([(a.attribute.name, a) for a in rs])`: later rows overwrite earlier ones. */
  function NameMap(rs: seq<UserAttribute>): (m: map<string, UserAttribute>)
    ensures forall r | r in rs :: r.Name() in m
    ensures forall n | n in m :: m[n] in rs && m[n].Name() == n
  {
    if rs == [] then map[]
    else
      var last := rs[|rs| - 1];
      assert forall r | r in rs :: r in rs[..|rs| - 1] || r == last;
      NameMap(rs[..|rs| - 1])[last.Name() := last]
  }

  /** A name maps to the last row that carries it. */
  lemma {:induction false} NameMapLast(rs: seq<UserAttribute>, i: nat)
    requires i < |rs|
    requires forall j :: i < j < |rs| ==> rs[j].Name() != rs[i].Name()
    ensures NameMap(rs)[rs[i].Name()] == rs[i]
  {
    if i < |rs| - 1 {
      NameMapLast(rs[..|rs| - 1], i);
    }
  }

  /**
   * `by_name`: a map whose keys are exactly the names of the active rows, each
   * mapped to an active row of that name: the last one in the default ordering.
   */
  function ByName(recs: seq<UserAttribute>): (m: map<string, UserAttribute>)
    ensures forall r | r in recs && r.active :: r.Name() in m
    ensures forall n | n in m :: m[n] in recs && m[n].active && m[n].Name() == n
    ensures var a := Active(recs);
            forall i | 0 <= i < |a| && LastOfName(a, i) :: a[i].Name() in m && m[a[i].Name()] == a[i]
  {
    var a := Active(recs);
    assert forall r | r in recs && r.active :: r in a by {
      forall r | r in recs && r.active ensures r in a {
        assert multiset(a)[r] > 0;
      }
    }
    LastRowWins(a);
    NameMap(a)
  }

  /** Every row that no later row shares a name with is the one its name maps to. */
  lemma LastRowWins(rs: seq<UserAttribute>)
    ensures forall i | 0 <= i < |rs| && LastOfName(rs, i) :: rs[i].Name() in NameMap(rs) && NameMap(rs)[rs[i].Name()] == rs[i]
  {
    forall i | 0 <= i < |rs| && LastOfName(rs, i)
      ensures rs[i].Name() in NameMap(rs) && NameMap(rs)[rs[i].Name()] == rs[i]
    {
      NameMapLast(rs, i);
    }
  }

  /** No row after position `i` carries the name of row `i`. */
  predicate LastOfName(rs: seq<UserAttribute>, i: nat)
    requires i < |rs|
  {
    forall j | i < j < |rs| :: rs[j].Name() != rs[i].Name()
  }

  /** The rows `public_by_name` fetches: active and not private, each as often as stored, in the default ordering. */
  function PublicActive(recs: seq<UserAttribute>): (a: seq<UserAttribute>)
    ensures forall r | r in a :: r in recs && r.active && !r.private
    ensures forall r | r in recs :: multiset(a)[r] == if IsPublicActive(r) then multiset(recs)[r] else 0
    ensures SortedBy(a, Attr, DefaultOrder)
  {
    DefaultOrderIsTotal();
    FilterCounts(recs, IsPublicActive);
    var a := SortBy(Filter(recs, IsPublicActive), Attr, DefaultOrder);
    assert forall r | r in a :: r in recs && IsPublicActive(r) by {
      forall r | r in a ensures r in recs && IsPublicActive(r) {
        assert multiset(a)[r] > 0;
      }
    }
    a
  }

  /** `public_by_name`: as `by_name`, over the rows that are active and not private. */
  function PublicByName(recs: seq<UserAttribute>): (m: map<string, UserAttribute>)
    ensures forall r | r in recs && r.active && !r.private :: r.Name() in m
    ensures forall n | n in m :: m[n] in recs && m[n].active && !m[n].private && m[n].Name() == n
    ensures var a := PublicActive(recs);
            forall i | 0 <= i < |a| && LastOfName(a, i) :: a[i].Name() in m && m[a[i].Name()] == a[i]
  {
    var a := PublicActive(recs);
    assert forall r | r in recs && IsPublicActive(r) :: r in a by {
      forall r | r in recs && IsPublicActive(r) ensures r in a {
        assert multiset(a)[r] > 0;
      }
    }
    LastRowWins(a);
    NameMap(a)
  }
}
