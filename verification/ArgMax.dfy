/** The max/argmax reducer body: a pair of a value and the index holding it. */
module ArgMax {

  /** An element: not-a-number, or a number of a totally ordered type. */
  datatype Value = NaN | Number(n: real)

  datatype Entry = Entry(value: Value, index: int)

  // Comparisons are false on unordered operands, except for "not equal", as in section 5.11 of IEEE 754-2019.

  predicate Greater(a: Value, b: Value) { a.Number? && b.Number? && a.n > b.n }

  predicate Equal(a: Value, b: Value) { a.Number? && b.Number? && a.n == b.n }

  predicate NotEqual(a: Value, b: Value) { !Equal(a, b) }

  /** NaN-propagating maximum, as in section 9.6 of IEEE 754-2019. */
  function Maximum(a: Value, b: Value): Value {
    if a.NaN? || b.NaN? then NaN else if a.n >= b.n then a else b
  }

  /** Lhs is selected when it is NaN and rhs is not, or both indices decide. */
  predicate NaNLhsSelectionCondition(lhs: Value, rhs: Value, ltIndex: bool) {
    var lhsIsNan := NotEqual(lhs, lhs);
    var rhsNotNan := Equal(rhs, rhs);
    lhsIsNan && (rhsNotNan || ltIndex)
  }

  /** The emitted body; the NaN condition is only emitted for floating-point element types. */
  function Body(isFloat: bool, lhs: Entry, rhs: Entry): Entry {
    var gtPred := Greater(lhs.value, rhs.value);
    var eqPred := Equal(lhs.value, rhs.value);
    var ltIndexPred := lhs.index < rhs.index;
    var tieBreaker := eqPred && ltIndexPred;
    var lhsCondition := gtPred || tieBreaker;
    var finalLhsCondition :=
      if isFloat then lhsCondition || NaNLhsSelectionCondition(lhs.value, rhs.value, ltIndexPred) else lhsCondition;
    Entry(Maximum(lhs.value, rhs.value), if finalLhsCondition then lhs.index else rhs.index)
  }

  /** Only floating-point types have NaNs. */
  predicate Typed(isFloat: bool, e: Entry) { isFloat || e.value.Number? }

  /** `a` is preferred to `b`: NaN first, then larger values, then smaller indices. */
  predicate AtLeastAsGood(a: Entry, b: Entry) {
    if a.value.NaN? then b.value.Number? || a.index <= b.index
    else b.value.Number? && (a.value.n > b.value.n || (a.value.n == b.value.n && a.index <= b.index))
  }

  /** The body returns the preferred one of its two arguments, value and index together. */
  lemma BodySelects(isFloat: bool, lhs: Entry, rhs: Entry)
    requires Typed(isFloat, lhs) && Typed(isFloat, rhs)
    ensures Body(isFloat, lhs, rhs) == if AtLeastAsGood(lhs, rhs) then lhs else rhs
    ensures AtLeastAsGood(lhs, rhs) || AtLeastAsGood(rhs, lhs)
    ensures AtLeastAsGood(lhs, rhs) && AtLeastAsGood(rhs, lhs) ==> lhs == rhs
  {
  }

  /** The body is commutative, associative and idempotent. */
  lemma BodyLaws(isFloat: bool, a: Entry, b: Entry, c: Entry)
    requires Typed(isFloat, a) && Typed(isFloat, b) && Typed(isFloat, c)
    ensures Body(isFloat, a, b) == Body(isFloat, b, a)
    ensures Body(isFloat, Body(isFloat, a, b), c) == Body(isFloat, a, Body(isFloat, b, c))
    ensures Body(isFloat, a, a) == a
  {
    BodySelects(isFloat, a, b);
    BodySelects(isFloat, b, c);
    BodySelects(isFloat, a, c);
  }

  // ----- reductions

  /** A reduction of the entries at the leaves, in any grouping and any order. */
  datatype Tree = Leaf(entry: Entry) | Node(left: Tree, right: Tree)

  function Leaves(t: Tree): (s: seq<Entry>)
    ensures s != []
  {
    match t
    case Leaf(e) => [e]
    case Node(l, r) => Leaves(l) + Leaves(r)
  }

  function Reduce(isFloat: bool, t: Tree): Entry {
    match t
    case Leaf(e) => e
    case Node(l, r) => Body(isFloat, Reduce(isFloat, l), Reduce(isFloat, r))
  }

  predicate AllTyped(isFloat: bool, s: seq<Entry>) {
    forall i :: 0 <= i < |s| ==> Typed(isFloat, s[i])
  }

  /** The answer a reader expects: some entry is NaN and the index is the smallest one of a NaN, or the
      value is the maximum and the index is the smallest one holding it. */
  predicate IsArgMax(e: Entry, s: seq<Entry>) {
    && e in s
    && (if exists i :: 0 <= i < |s| && s[i].value.NaN?
        then e.value.NaN? && forall i :: 0 <= i < |s| && s[i].value.NaN? ==> e.index <= s[i].index
        else e.value.Number?
             && (forall i :: 0 <= i < |s| ==> s[i].value.n <= e.value.n)
             && (forall i :: 0 <= i < |s| && s[i].value.n == e.value.n ==> e.index <= s[i].index))
  }

  lemma {:induction false} ReducePrefers(isFloat: bool, t: Tree)
    requires AllTyped(isFloat, Leaves(t))
    ensures Typed(isFloat, Reduce(isFloat, t)) && Reduce(isFloat, t) in Leaves(t)
    ensures forall i :: 0 <= i < |Leaves(t)| ==> AtLeastAsGood(Reduce(isFloat, t), Leaves(t)[i])
  {
    match t
    case Leaf(e) =>
      assert Leaves(t)[0] == e;
    case Node(l, r) =>
      var s := Leaves(t);
      forall i | 0 <= i < |Leaves(l)| ensures Typed(isFloat, Leaves(l)[i]) { assert s[i] == Leaves(l)[i]; }
      forall i | 0 <= i < |Leaves(r)| ensures Typed(isFloat, Leaves(r)[i]) { assert s[|Leaves(l)| + i] == Leaves(r)[i]; }
      ReducePrefers(isFloat, l);
      ReducePrefers(isFloat, r);
      BodySelects(isFloat, Reduce(isFloat, l), Reduce(isFloat, r));
  }

  /** Every reduction tree yields the maximum, NaN if any is present, with the smallest index holding it. */
  lemma {:induction false} ReduceIsArgMax(isFloat: bool, t: Tree)
    requires AllTyped(isFloat, Leaves(t))
    ensures IsArgMax(Reduce(isFloat, t), Leaves(t))
  {
    ReducePrefers(isFloat, t);
  }

  lemma ArgMaxUnique(e: Entry, e': Entry, s: seq<Entry>, s': seq<Entry>)
    requires IsArgMax(e, s) && IsArgMax(e', s') && forall x :: x in s <==> x in s'
    ensures e == e'
  {
    var i :| 0 <= i < |s'| && s'[i] == e;
    var j :| 0 <= j < |s| && s[j] == e';
    if k :| 0 <= k < |s| && s[k].value.NaN? {
      assert s[k] in s;
      var m :| 0 <= m < |s'| && s'[m] == s[k];
    }
    if k :| 0 <= k < |s'| && s'[k].value.NaN? {
      assert s'[k] in s';
      var m :| 0 <= m < |s| && s[m] == s'[k];
    }
  }

  /** Any two trees over the same entries, in whatever order and multiplicity, reduce to the same pair. */
  lemma {:induction false} TreesAgree(isFloat: bool, t: Tree, u: Tree)
    requires AllTyped(isFloat, Leaves(t)) && forall x :: x in Leaves(t) <==> x in Leaves(u)
    ensures Reduce(isFloat, t) == Reduce(isFloat, u)
  {
    forall i | 0 <= i < |Leaves(u)| ensures Typed(isFloat, Leaves(u)[i]) {
      assert Leaves(u)[i] in Leaves(t);
    }
    ReduceIsArgMax(isFloat, t);
    ReduceIsArgMax(isFloat, u);
    ArgMaxUnique(Reduce(isFloat, t), Reduce(isFloat, u), Leaves(t), Leaves(u));
  }
}
