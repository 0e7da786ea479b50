/** Printing and parsing attributes that look like structs: keyword = value entries in angle brackets,
    with default values left out. */
module StructSyntax {
  import opened Sequences
  import opened Types

  /** Lexed input; characters and whitespace are not modelled. */
  datatype Token = Keyword(name: string) | IntToken(n: int) | Question | Equal | Comma
                 | LSquare | RSquare | Less | Greater | Arrow

  /** A field holds a list of integers or one integer. */
  datatype FieldValue = Ints(dims: seq<int>) | Num(n: int)

  datatype Field = Field(name: string, isList: bool)

  function Default(f: Field): FieldValue { if f.isList then Ints([]) else Num(0) }

  predicate HasType(f: Field, v: FieldValue) { f.isList <==> v.Ints? }

  predicate WellTyped(schema: seq<Field>, values: seq<FieldValue>) {
    |values| == |schema| && forall i :: 0 <= i < |schema| ==> HasType(schema[i], values[i])
  }

  predicate DistinctNames(schema: seq<Field>) {
    forall i, j :: 0 <= i < j < |schema| ==> schema[i].name != schema[j].name
  }

  function Defaults(schema: seq<Field>): (r: seq<FieldValue>)
    ensures |r| == |schema| && forall i :: 0 <= i < |schema| ==> r[i] == Default(schema[i])
  {
    seq(|schema|, i requires 0 <= i < |schema| => Default(schema[i]))
  }

  function NoneSeen(schema: seq<Field>): (r: seq<bool>)
    ensures |r| == |schema| && forall i :: 0 <= i < |schema| ==> !r[i]
  {
    seq(|schema|, i => false)
  }

  // ----- values

  function ListTokens(xs: seq<int>): seq<Token> {
    if xs == [] then [] else if |xs| == 1 then [IntToken(xs[0])] else [IntToken(xs[0]), Comma] + ListTokens(xs[1..])
  }

  function ValueTokens(v: FieldValue): seq<Token> {
    match v
    case Num(n) => [IntToken(n)]
    case Ints(xs) => [LSquare] + ListTokens(xs) + [RSquare]
  }

  /** One dimension size: a question mark for the unknown size, or an integer. */
  function ParseDimSize(ts: seq<Token>): Option<int> {
    if ts == [] then None
    else if ts[0].Question? then Some(DYNAMIC)
    else if ts[0].IntToken? then Some(ts[0].n)
    else None
  }

  function ParseElements(ts: seq<Token>): (r: Option<(seq<int>, seq<Token>)>)
    ensures r.Some? ==> |r.value.1| < |ts|
  {
    match ParseDimSize(ts)
    case None => None
    case Some(x) =>
      if |ts| >= 2 && ts[1].RSquare? then Some(([x], ts[2..]))
      else if |ts| >= 2 && ts[1].Comma? then
        match ParseElements(ts[2..])
        case None => None
        case Some((xs, rest)) => Some(([x] + xs, rest))
      else None
  }

  function ParseValue(isList: bool, ts: seq<Token>): (r: Option<(FieldValue, seq<Token>)>)
    ensures r.Some? ==> |r.value.1| < |ts| && r.value.0.Ints? == isList
  {
    if ts == [] then None
    else if !isList then
      if ts[0].IntToken? then Some((Num(ts[0].n), ts[1..])) else None
    else if !ts[0].LSquare? then None
    else if |ts| >= 2 && ts[1].RSquare? then Some((Ints([]), ts[2..]))
    else
      match ParseElements(ts[1..])
      case None => None
      case Some((xs, rest)) => Some((Ints(xs), rest))
  }

  lemma {:induction false} ElementsRoundTrip(xs: seq<int>, rest: seq<Token>)
    requires xs != []
    ensures ParseElements(ListTokens(xs) + [RSquare] + rest) == Some((xs, rest))
  {
    var ts := ListTokens(xs) + [RSquare] + rest;
    if |xs| == 1 {
      assert xs == [xs[0]];
      assert ts == [IntToken(xs[0]), RSquare] + rest;
      ParseLast(xs[0], rest);
    } else {
      ElementsRoundTrip(xs[1..], rest);
      var more := ListTokens(xs[1..]) + [RSquare] + rest;
      Regroup([IntToken(xs[0]), Comma], ListTokens(xs[1..]), [RSquare], rest);
      ParseNext(xs[0], more);
      assert xs == [xs[0]] + xs[1..];
    }
  }

  lemma ParseLast(x: int, rest: seq<Token>)
    ensures ParseElements([IntToken(x), RSquare] + rest) == Some(([x], rest))
  {
    assert ([IntToken(x), RSquare] + rest)[2..] == rest;
  }

  lemma ParseNext(x: int, more: seq<Token>)
    ensures ParseElements([IntToken(x), Comma] + more)
            == var r := ParseElements(more); if r.None? then None else Some(([x] + r.value.0, r.value.1))
  {
    assert ([IntToken(x), Comma] + more)[2..] == more;
  }

  lemma Regroup<T>(a: seq<T>, b: seq<T>, c: seq<T>, d: seq<T>)
    ensures (a + b) + c + d == a + (b + c + d)
  {
  }

  lemma {:induction false} ValueRoundTrip(v: FieldValue, rest: seq<Token>)
    ensures ParseValue(v.Ints?, ValueTokens(v) + rest) == Some((v, rest))
  {
    match v
    case Num(n) =>
      assert ([IntToken(n)] + rest)[1..] == rest;
    case Ints(xs) =>
      if xs == [] {
        EmptyListParses(rest);
      } else {
        ElementsRoundTrip(xs, rest);
        Regroup([LSquare], ListTokens(xs), [RSquare], rest);
        ListParses(xs, ListTokens(xs) + [RSquare] + rest, rest);
      }
  }

  lemma EmptyListParses(rest: seq<Token>)
    ensures ValueTokens(Ints([])) + rest == [LSquare, RSquare] + rest
    ensures ParseValue(true, [LSquare, RSquare] + rest) == Some((Ints([]), rest))
  {
    assert ([LSquare, RSquare] + rest)[2..] == rest;
  }

  lemma ListParses(xs: seq<int>, after: seq<Token>, rest: seq<Token>)
    requires ParseElements(after) == Some((xs, rest))
    ensures ParseValue(true, [LSquare] + after) == Some((Ints(xs), rest))
  {
    assert ([LSquare] + after)[1..] == after;
  }

  // ----- entries

  datatype Entry = Entry(index: nat, value: FieldValue)

  predicate EntriesOk(schema: seq<Field>, es: seq<Entry>) {
    forall k :: 0 <= k < |es| ==> es[k].index < |schema| && HasType(schema[es[k].index], es[k].value)
  }

  function EntryTokens(schema: seq<Field>, e: Entry): seq<Token>
    requires e.index < |schema|
  {
    FieldTokens(schema[e.index], e.value)
  }

  function FieldTokens(field: Field, v: FieldValue): seq<Token> {
    [Keyword(field.name), Equal] + ValueTokens(v)
  }

  /** Entries in the order given, separated by commas. */
  function EntriesTokens(schema: seq<Field>, es: seq<Entry>): seq<Token>
    requires EntriesOk(schema, es)
  {
    if es == [] then []
    else if |es| == 1 then EntryTokens(schema, es[0])
    else EntryTokens(schema, es[0]) + [Comma] + EntriesTokens(schema, es[1..])
  }

  function Assign(values: seq<FieldValue>, es: seq<Entry>): (r: seq<FieldValue>)
    requires forall k :: 0 <= k < |es| ==> es[k].index < |values|
    ensures |r| == |values|
    decreases |es|
  {
    if es == [] then values else Assign(values[es[0].index := es[0].value], es[1..])
  }

  function Indices(es: seq<Entry>): (r: seq<int>)
    ensures |r| == |es| && forall k :: 0 <= k < |es| ==> r[k] == es[k].index
  {
    seq(|es|, k requires 0 <= k < |es| => es[k].index)
  }

  // ----- the parser, as a function of the remaining tokens

  function Lookup(schema: seq<Field>, name: string): (r: Option<nat>)
    ensures r.Some? ==> r.value < |schema| && schema[r.value].name == name
    ensures r.None? ==> forall i :: 0 <= i < |schema| ==> schema[i].name != name
  {
    if schema == [] then None
    else if schema[|schema| - 1].name == name then Some(|schema| - 1)
    else Lookup(schema[..|schema| - 1], name)
  }

  /** Entries up to the closing bracket, each field at most once; a trailing comma is allowed. */
  function ParseFields(schema: seq<Field>, ts: seq<Token>, seen: seq<bool>, values: seq<FieldValue>)
    : (r: Option<(seq<FieldValue>, seq<Token>)>)
    requires |seen| == |schema| && WellTyped(schema, values)
    ensures r.Some? ==> WellTyped(schema, r.value.0)
    decreases |ts|
  {
    if ts == [] then None
    else if ts[0].Greater? then Some((values, ts[1..]))
    else if !ts[0].Keyword? then None
    else
      match Lookup(schema, ts[0].name)
      case None => None
      case Some(i) =>
        if seen[i] || |ts| < 2 || !ts[1].Equal? then None
        else
          match ParseValue(schema[i].isList, ts[2..])
          case None => None
          case Some((v, rest)) =>
            var values' := values[i := v];
            if rest == [] then None
            else if rest[0].Comma? then ParseFields(schema, rest[1..], seen[i := true], values')
            else if rest[0].Greater? then Some((values', rest[1..]))
            else None
  }

  lemma LookupIs(schema: seq<Field>, i: nat)
    requires DistinctNames(schema) && i < |schema|
    ensures Lookup(schema, schema[i].name) == Some(i)
  {
    var r := Lookup(schema, schema[i].name);
    assert r.Some?;
    assert !(r.value < i) && !(r.value > i);
  }

  // ----- the parser, as code

  /** The next token is the keyword. */
  predicate StartsWith(ts: seq<Token>, name: string) {
    ts != [] && ts[0] == Keyword(name)
  }

  function CountSeen(seen: seq<bool>): (n: nat)
    ensures n <= |seen|
  {
    if seen == [] then 0 else (if seen[0] then 1 else 0) + CountSeen(seen[1..])
  }

  lemma {:induction false} CountStep(seen: seq<bool>, i: nat)
    requires i < |seen| && !seen[i]
    ensures CountSeen(seen[i := true]) == CountSeen(seen) + 1
  {
    if i > 0 {
      CountStep(seen[1..], i - 1);
      assert seen[i := true][1..] == seen[1..][i - 1 := true];
    } else {
      assert seen[i := true][1..] == seen[1..];
    }
  }

  datatype Step = Failed | Done(values: seq<FieldValue>, rest: seq<Token>)
                | Continue(values: seq<FieldValue>, rest: seq<Token>, seen: seq<bool>)

  predicate StepOk(schema: seq<Field>, step: Step) {
    step.Continue? ==> |step.seen| == |schema| && WellTyped(schema, step.values)
  }

  /** What the parse comes to after a step. */
  function Outcome(schema: seq<Field>, step: Step): Option<(seq<FieldValue>, seq<Token>)>
    requires StepOk(schema, step)
  {
    match step
    case Failed => None
    case Done(values, rest) => Some((values, rest))
    case Continue(values, rest, seen) => ParseFields(schema, rest, seen, values)
  }

  /** The body of the keyword loop, once the keyword has matched. */
  method ParseMatched(schema: seq<Field>, index: nat, ts: seq<Token>, seen: seq<bool>, values: seq<FieldValue>) returns (step: Step)
    requires DistinctNames(schema) && |seen| == |schema| && WellTyped(schema, values)
    requires index < |schema| && StartsWith(ts, schema[index].name)
    ensures StepOk(schema, step) && Outcome(schema, step) == ParseFields(schema, ts, seen, values)
    ensures step.Continue? ==> !seen[index] && step.seen == seen[index := true]
  {
    LookupIs(schema, index);
    if seen[index] { return Failed; }
    if |ts| < 2 || !ts[1].Equal? { return Failed; }
    var parsed := ParseValue(schema[index].isList, ts[2..]);
    if parsed.None? { return Failed; }
    var updated, rest := values[index := parsed.value.0], parsed.value.1;
    if rest != [] && rest[0].Comma? {
      return Continue(updated, rest[1..], seen[index := true]);
    }
    if rest != [] && rest[0].Greater? { return Done(updated, rest[1..]); }
    return Failed;
  }

  /** One pass over the keywords. */
  method ParsePass(schema: seq<Field>, ts: seq<Token>, seen: seq<bool>, values: seq<FieldValue>)
    returns (step: Step, foundOne: bool)
    requires DistinctNames(schema) && |seen| == |schema| && WellTyped(schema, values)
    requires ts == [] || !ts[0].Greater?
    ensures StepOk(schema, step) && Outcome(schema, step) == ParseFields(schema, ts, seen, values)
    ensures step.Continue? && foundOne ==> CountSeen(step.seen) > CountSeen(seen)
    ensures step.Continue? && !foundOne ==> ParseFields(schema, ts, seen, values).None?
  {
    step, foundOne := Continue(values, ts, seen), false;
    for index := 0 to |schema|
      invariant step.Continue? && StepOk(schema, step)
      invariant Outcome(schema, step) == ParseFields(schema, ts, seen, values)
      invariant foundOne ==> CountSeen(step.seen) > CountSeen(seen)
      invariant !foundOne ==> step == Continue(values, ts, seen) && forall i :: 0 <= i < index ==> !StartsWith(ts, schema[i].name)
    {
      if StartsWith(step.rest, schema[index].name) {
        var before := step;
        step := ParseMatched(schema, index, before.rest, before.seen, before.values);
        if !step.Continue? { return; }
        CountStep(before.seen, index);
        foundOne := true;
      }
    }
    if !foundOne && ts != [] && ts[0].Keyword? {
      assert Lookup(schema, ts[0].name).None?;
    }
  }

  /** The struct parser. The outer loop makes at most one pass more than there are keywords, because no
      field is accepted twice. */
  method ParseStruct(schema: seq<Field>, tokens: seq<Token>)
    returns (r: Option<(seq<FieldValue>, seq<Token>)>, ghost passes: nat)
    requires DistinctNames(schema)
    ensures r == ParseFields(schema, tokens, NoneSeen(schema), Defaults(schema))
    ensures passes <= |schema| + 1
  {
    var seen, values, ts := NoneSeen(schema), Defaults(schema), tokens;
    ghost var initial := seen;
    passes := 0;
    while ts == [] || !ts[0].Greater?
      invariant |seen| == |schema| && WellTyped(schema, values)
      invariant ParseFields(schema, tokens, initial, Defaults(schema)) == ParseFields(schema, ts, seen, values)
      invariant passes <= CountSeen(seen)
      decreases |schema| - CountSeen(seen)
    {
      passes := passes + 1;
      var step, foundOne := ParsePass(schema, ts, seen, values);
      if step.Failed? { return None, passes; }
      if step.Done? { return Some((step.values, step.rest)), passes; }
      if !foundOne { return None, passes; }
      ts, seen, values := step.rest, step.seen, step.values;
    }
    return Some((values, ts[1..])), passes;
  }

  // ----- parsing printed entries

  /** No entry repeats a field that has been seen or an earlier entry. */
  predicate Fresh(es: seq<Entry>, seen: seq<bool>)
    requires forall k :: 0 <= k < |es| ==> es[k].index < |seen|
  {
    es == [] || (!seen[es[0].index] && Fresh(es[1..], seen[es[0].index := true]))
  }

  lemma {:induction false} FreshIffDistinct(es: seq<Entry>, seen: seq<bool>)
    requires forall k :: 0 <= k < |es| ==> es[k].index < |seen|
    ensures Fresh(es, seen) <==> Distinct(Indices(es)) && forall k :: 0 <= k < |es| ==> !seen[es[k].index]
  {
    if es != [] {
      var seen' := seen[es[0].index := true];
      FreshIffDistinct(es[1..], seen');
      var ids, tail := Indices(es), Indices(es[1..]);
      assert ids == [ids[0]] + tail;
      if Fresh(es, seen) {
        forall k | 0 <= k < |tail| ensures tail[k] != ids[0] && !seen[tail[k]] { assert !seen'[es[1..][k].index]; }
      }
      if Distinct(ids) && forall k :: 0 <= k < |es| ==> !seen[es[k].index] {
        forall i, j | 0 <= i < j < |tail| ensures tail[i] != tail[j] { assert ids[i + 1] != ids[j + 1]; }
        forall k | 0 <= k < |es[1..]| ensures !seen'[es[1..][k].index] { assert ids[0] != ids[k + 1]; }
      }
    }
  }

  /** The parser accepts a printed list of entries if and only if no field is repeated, and then assigns
      them; whatever follows the closing bracket is left over. */
  lemma {:induction false} EntriesParse(schema: seq<Field>, es: seq<Entry>, seen: seq<bool>, values: seq<FieldValue>, rest: seq<Token>)
    requires DistinctNames(schema) && |seen| == |schema| && WellTyped(schema, values) && EntriesOk(schema, es)
    ensures ParseFields(schema, EntriesTokens(schema, es) + [Greater] + rest, seen, values)
            == if Fresh(es, seen) then Some((Assign(values, es), rest)) else None
  {
    if es == [] {
      assert [] + [Greater] + rest == [Greater] + rest;
      assert ([Greater] + rest)[1..] == rest;
    } else {
      var e := es[0];
      var more := EntriesTokens(schema, es[1..]) + [Greater] + rest;
      var tail := if |es| == 1 then [Greater] + rest else [Comma] + more;
      EntrySplit(schema, es, rest);
      ParseEntry(schema, e, seen, values, tail);
      if |es| == 1 {
        assert tail[1..] == rest;
        assert Assign(values[e.index := e.value], es[1..]) == values[e.index := e.value];
      } else if !seen[e.index] {
        EntriesParse(schema, es[1..], seen[e.index := true], values[e.index := e.value], rest);
        assert tail[1..] == more;
      }
    }
  }

  lemma EntrySplit(schema: seq<Field>, es: seq<Entry>, rest: seq<Token>)
    requires EntriesOk(schema, es) && es != []
    ensures EntriesTokens(schema, es) + [Greater] + rest
            == EntryTokens(schema, es[0]) + (if |es| == 1 then [Greater] + rest
                                             else [Comma] + (EntriesTokens(schema, es[1..]) + [Greater] + rest))
  {
    if |es| == 1 {
      ConcatAssociative(EntryTokens(schema, es[0]), [Greater], rest);
    } else {
      Regroup2(EntryTokens(schema, es[0]), [Comma], EntriesTokens(schema, es[1..]), [Greater], rest);
    }
  }

  lemma Regroup2<T>(a: seq<T>, b: seq<T>, c: seq<T>, d: seq<T>, e: seq<T>)
    ensures (a + b + c) + d + e == a + (b + (c + d + e))
  {
  }

  /** One entry, followed by anything. */
  lemma ParseEntry(schema: seq<Field>, e: Entry, seen: seq<bool>, values: seq<FieldValue>, tail: seq<Token>)
    requires DistinctNames(schema) && |seen| == |schema| && WellTyped(schema, values) && tail != []
    requires e.index < |schema| && HasType(schema[e.index], e.value)
    ensures ParseFields(schema, EntryTokens(schema, e) + tail, seen, values)
            == if seen[e.index] then None
               else if tail[0].Comma? then ParseFields(schema, tail[1..], seen[e.index := true], values[e.index := e.value])
               else if tail[0].Greater? then Some((values[e.index := e.value], tail[1..]))
               else None
  {
    var head := [Keyword(schema[e.index].name), Equal];
    var ts := head + (ValueTokens(e.value) + tail);
    ConcatAssociative(head, ValueTokens(e.value), tail);
    assert ts[2..] == ValueTokens(e.value) + tail;
    LookupIs(schema, e.index);
    ValueRoundTrip(e.value, tail);
  }

  // ----- every accepted text is printed entries

  /** Without the question marks that stand for unknown sizes. */
  predicate NoQuestion(ts: seq<Token>) {
    forall i :: 0 <= i < |ts| ==> !ts[i].Question?
  }

  lemma {:induction false} ElementsRead(ts: seq<Token>, xs: seq<int>, rest: seq<Token>)
    requires NoQuestion(ts) && ParseElements(ts) == Some((xs, rest))
    ensures xs != [] && ts == ListTokens(xs) + ([RSquare] + rest)
  {
    if ts[1].RSquare? {
      assert ts == [ts[0], ts[1]] + ts[2..];
    } else {
      ElementsRead(ts[2..], xs[1..], rest);
      assert ts == [ts[0], ts[1]] + ts[2..];
      ConcatAssociative([IntToken(xs[0]), Comma], ListTokens(xs[1..]), [RSquare] + rest);
    }
  }

  lemma {:induction false} ValueRead(isList: bool, ts: seq<Token>, v: FieldValue, rest: seq<Token>)
    requires NoQuestion(ts) && ParseValue(isList, ts) == Some((v, rest))
    ensures v.Ints? == isList && ts == ValueTokens(v) + rest
  {
    if !isList {
      assert ts == [ts[0]] + ts[1..];
    } else if |ts| >= 2 && ts[1].RSquare? {
      assert ts == [ts[0], ts[1]] + ts[2..];
    } else {
      ElementsRead(ts[1..], v.dims, rest);
      assert ts == [ts[0]] + ts[1..];
      Regroup([LSquare], ListTokens(v.dims), [RSquare], rest);
      ConcatAssociative(ListTokens(v.dims), [RSquare], rest);
    }
  }

  /** The text of entries, with or without a comma after them, up to the closing bracket. */
  function EntriesText(schema: seq<Field>, es: seq<Entry>, trailing: bool, rest: seq<Token>): seq<Token>
    requires EntriesOk(schema, es)
  {
    EntriesTokens(schema, es) + ((if trailing then [Comma] else []) + ([Greater] + rest))
  }

  /** Text is accepted only if it is fresh entries, and then they are what is read. */
  lemma {:induction false} FieldsRead(schema: seq<Field>, ts: seq<Token>, seen: seq<bool>, values: seq<FieldValue>)
    returns (es: seq<Entry>, trailing: bool)
    requires |seen| == |schema| && WellTyped(schema, values) && NoQuestion(ts) && ParseFields(schema, ts, seen, values).Some?
    ensures EntriesOk(schema, es) && Fresh(es, seen) && (trailing ==> es != [])
    ensures var (read, rest) := ParseFields(schema, ts, seen, values).value;
            read == Assign(values, es) && ts == EntriesText(schema, es, trailing, rest)
    decreases |ts|
  {
    if ts[0].Greater? {
      es, trailing := [], false;
      assert [] + ([] + ([Greater] + ts[1..])) == ts;
    } else {
      var e, after := FirstRead(schema, ts, seen, values);
      assert ts == EntryTokens(schema, e) + after;
      if after[0].Comma? {
        var more, last := FieldsRead(schema, after[1..], seen[e.index := true], values[e.index := e.value]);
        es, trailing := [e] + more, more == [] || last;
        NextRead(schema, e, more, seen, values);
        MoreRead(schema, e, more, last, ParseFields(schema, ts, seen, values).value.1);
        assert after == [Comma] + after[1..];
      } else {
        es, trailing := [e] + [], false;
        NextRead(schema, e, [], seen, values);
        LastRead(schema, e, after);
      }
    }
  }

  /** The first entry, and what follows it. */
  lemma FirstRead(schema: seq<Field>, ts: seq<Token>, seen: seq<bool>, values: seq<FieldValue>) returns (e: Entry, after: seq<Token>)
    requires |seen| == |schema| && WellTyped(schema, values) && NoQuestion(ts) && ParseFields(schema, ts, seen, values).Some?
    requires !ts[0].Greater?
    ensures e.index < |schema| && HasType(schema[e.index], e.value) && !seen[e.index]
    ensures ts == EntryTokens(schema, e) + after && after != [] && |after| < |ts| && NoQuestion(after)
    ensures after[0].Comma? || after[0].Greater?
    ensures after[0].Comma? ==>
              ParseFields(schema, ts, seen, values) == ParseFields(schema, after[1..], seen[e.index := true], values[e.index := e.value])
    ensures after[0].Greater? ==> ParseFields(schema, ts, seen, values) == Some((values[e.index := e.value], after[1..]))
  {
    var i := Lookup(schema, ts[0].name).value;
    var (v, rest) := ParseValue(schema[i].isList, ts[2..]).value;
    e, after := Entry(i, v), rest;
    ValueRead(schema[i].isList, ts[2..], v, after);
    EntryRead(schema, ts, e, after);
    assert forall k :: 0 <= k < |after| ==> after[k] == ts[|ts| - |after| + k];
  }

  lemma NextRead(schema: seq<Field>, e: Entry, more: seq<Entry>, seen: seq<bool>, values: seq<FieldValue>)
    requires |seen| == |schema| && WellTyped(schema, values) && e.index < |schema| && HasType(schema[e.index], e.value) && !seen[e.index]
    requires EntriesOk(schema, more) && Fresh(more, seen[e.index := true])
    ensures EntriesOk(schema, [e] + more) && Fresh([e] + more, seen)
    ensures Assign(values, [e] + more) == Assign(values[e.index := e.value], more)
  {
    assert ([e] + more)[1..] == more;
  }

  lemma LastRead(schema: seq<Field>, e: Entry, after: seq<Token>)
    requires e.index < |schema| && EntriesOk(schema, [e] + []) && after != [] && after[0].Greater?
    ensures EntryTokens(schema, e) + after == EntriesText(schema, [e] + [], false, after[1..])
  {
    assert after == [] + ([Greater] + after[1..]);
  }

  lemma EntryRead(schema: seq<Field>, ts: seq<Token>, e: Entry, after: seq<Token>)
    requires |ts| >= 2 && e.index < |schema| && ts[0] == Keyword(schema[e.index].name) && ts[1] == Equal
    requires ts[2..] == ValueTokens(e.value) + after
    ensures ts == EntryTokens(schema, e) + after
  {
    ConcatAssociative([ts[0], ts[1]], ValueTokens(e.value), after);
    assert ts == [ts[0], ts[1]] + ts[2..];
  }

  lemma MoreRead(schema: seq<Field>, e: Entry, more: seq<Entry>, last: bool, rest: seq<Token>)
    requires EntriesOk(schema, [e] + more) && EntriesOk(schema, more) && e.index < |schema| && (last ==> more != [])
    ensures EntryTokens(schema, e) + ([Comma] + EntriesText(schema, more, last, rest))
            == EntriesText(schema, [e] + more, more == [] || last, rest)
  {
    var es := [e] + more;
    assert es[1..] == more && es[0] == e;
    if more == [] {
      assert [] + ([] + ([Greater] + rest)) == [Greater] + rest;
    } else {
      var tail := (if last then [Comma] else []) + ([Greater] + rest);
      RegroupTail(EntryTokens(schema, e), [Comma], EntriesTokens(schema, more), tail);
    }
  }

  lemma RegroupTail<T>(a: seq<T>, b: seq<T>, c: seq<T>, d: seq<T>)
    ensures a + (b + (c + d)) == (a + b + c) + d
  {
  }

  /** Without question marks, text is accepted if and only if it is entries in any order, of different fields, with
      or without a comma after them; exactly the fields that occur are assigned. */
  lemma {:induction false} StructAcceptsIff(schema: seq<Field>, ts: seq<Token>, values: seq<FieldValue>, rest: seq<Token>)
    requires DistinctNames(schema) && NoQuestion(ts)
    ensures ParseFields(schema, ts, NoneSeen(schema), Defaults(schema)) == Some((values, rest))
            <==> exists es, trailing :: IsEntryText(schema, ts, es, trailing, rest) && values == Assign(Defaults(schema), es)
  {
    var none := NoneSeen(schema);
    if ParseFields(schema, ts, none, Defaults(schema)) == Some((values, rest)) {
      var es, trailing := FieldsRead(schema, ts, none, Defaults(schema));
      FreshIffDistinct(es, none);
      assert IsEntryText(schema, ts, es, trailing, rest);
    }
    if es, trailing :| IsEntryText(schema, ts, es, trailing, rest) && values == Assign(Defaults(schema), es) {
      FreshIffDistinct(es, none);
      if trailing {
        TrailingParse(schema, es, none, Defaults(schema), rest);
      } else {
        EntriesParse(schema, es, none, Defaults(schema), rest);
        assert [] + ([Greater] + rest) == [Greater] + rest;
        ConcatAssociative(EntriesTokens(schema, es), [Greater], rest);
      }
    }
  }

  predicate IsEntryText(schema: seq<Field>, ts: seq<Token>, es: seq<Entry>, trailing: bool, rest: seq<Token>) {
    EntriesOk(schema, es) && Distinct(Indices(es)) && (trailing ==> es != []) && ts == EntriesText(schema, es, trailing, rest)
  }

  lemma {:induction false} TrailingParse(schema: seq<Field>, es: seq<Entry>, seen: seq<bool>, values: seq<FieldValue>, rest: seq<Token>)
    requires DistinctNames(schema) && |seen| == |schema| && WellTyped(schema, values) && EntriesOk(schema, es)
    requires es != [] && Fresh(es, seen)
    ensures ParseFields(schema, EntriesText(schema, es, true, rest), seen, values) == Some((Assign(values, es), rest))
  {
    var e, more := es[0], es[1..];
    var seen', values' := seen[e.index := true], values[e.index := e.value];
    assert es == [e] + more;
    var tail := [Comma] + EntriesText(schema, more, more != [], rest);
    MoreRead(schema, e, more, more != [], rest);
    ParseEntry(schema, e, seen, values, tail);
    assert tail[1..] == EntriesText(schema, more, more != [], rest);
    if more == [] {
      assert tail[1..] == [Greater] + rest && ([Greater] + rest)[1..] == rest;
    } else {
      TrailingParse(schema, more, seen', values', rest);
    }
  }

  /** What a duplicate-free assignment gives each field, with no reference to the order. */
  lemma {:induction false} AssignMeaning(values: seq<FieldValue>, es: seq<Entry>, i: nat)
    requires forall k :: 0 <= k < |es| ==> es[k].index < |values|
    requires Distinct(Indices(es)) && i < |values|
    ensures forall k :: 0 <= k < |es| && es[k].index == i ==> Assign(values, es)[i] == es[k].value
    ensures (forall k :: 0 <= k < |es| ==> es[k].index != i) ==> Assign(values, es)[i] == values[i]
    decreases |es|
  {
    if es != [] {
      var ids := Indices(es);
      assert Indices(es[1..]) == ids[1..];
      forall a, b | 0 <= a < b < |ids[1..]| ensures ids[1..][a] != ids[1..][b] { assert ids[a + 1] != ids[b + 1]; }
      AssignMeaning(values[es[0].index := es[0].value], es[1..], i);
      forall k | 0 <= k < |es| && es[k].index == i ensures Assign(values, es)[i] == es[k].value {
        if k == 0 {
          forall m | 0 <= m < |es[1..]| ensures es[1..][m].index != i { assert ids[0] != ids[m + 1]; }
        } else {
          assert es[1..][k - 1] == es[k];
        }
      }
    }
  }

  /** Any reordering of distinct fields parses to the same value; a repeated field never parses. */
  lemma {:induction false} OrderIsImmaterial(schema: seq<Field>, es: seq<Entry>, es': seq<Entry>, rest: seq<Token>)
    requires DistinctNames(schema) && EntriesOk(schema, es) && EntriesOk(schema, es')
    requires multiset(es) == multiset(es')
    ensures var none := NoneSeen(schema);
            && ParseFields(schema, EntriesTokens(schema, es) + [Greater] + rest, none, Defaults(schema))
               == ParseFields(schema, EntriesTokens(schema, es') + [Greater] + rest, none, Defaults(schema))
            && (ParseFields(schema, EntriesTokens(schema, es) + [Greater] + rest, none, Defaults(schema)).Some?
                <==> Distinct(Indices(es)))
  {
    var none := NoneSeen(schema);
    EntriesParse(schema, es, none, Defaults(schema), rest);
    EntriesParse(schema, es', none, Defaults(schema), rest);
    FreshIffDistinct(es, none);
    FreshIffDistinct(es', none);
    DistinctReordered(es, es');
    if Distinct(Indices(es)) {
      var v, v' := Assign(Defaults(schema), es), Assign(Defaults(schema), es');
      forall i | 0 <= i < |v| ensures v[i] == v'[i] {
        SameAssignment(Defaults(schema), es, es', i);
      }
      assert v == v';
    }
  }

  lemma SameAssignment(values: seq<FieldValue>, es: seq<Entry>, es': seq<Entry>, i: nat)
    requires forall k :: 0 <= k < |es| ==> es[k].index < |values|
    requires forall k :: 0 <= k < |es'| ==> es'[k].index < |values|
    requires Distinct(Indices(es)) && Distinct(Indices(es')) && multiset(es) == multiset(es') && i < |values|
    ensures Assign(values, es)[i] == Assign(values, es')[i]
  {
    AssignMeaning(values, es, i);
    AssignMeaning(values, es', i);
    if k :| 0 <= k < |es| && es[k].index == i {
      assert es[k] in multiset(es');
      var j :| 0 <= j < |es'| && es'[j] == es[k];
    } else {
      forall k | 0 <= k < |es'| ensures es'[k].index != i {
        assert es'[k] in multiset(es);
        var j :| 0 <= j < |es| && es[j] == es'[k];
      }
    }
  }

  lemma {:induction false} DistinctReordered(es: seq<Entry>, es': seq<Entry>)
    requires multiset(es) == multiset(es')
    ensures Distinct(Indices(es)) <==> Distinct(Indices(es'))
  {
    IndicesMultiset(es, es');
    DistinctMultiset(Indices(es), Indices(es'));
    DistinctMultiset(Indices(es'), Indices(es));
  }

  lemma {:induction false} IndicesMultiset(es: seq<Entry>, es': seq<Entry>)
    requires multiset(es) == multiset(es')
    ensures multiset(Indices(es)) == multiset(Indices(es'))
    decreases |es|
  {
    assert |multiset(es)| == |es| && |multiset(es')| == |es'|;
    if es != [] {
      var k := FindMatch(es, es');
      var others := es'[..k] + es'[k + 1..];
      IndicesMultiset(es[1..], others);
      IndicesFirst(es);
      IndicesRemove(es', k);
    }
  }

  lemma IndicesFirst(es: seq<Entry>)
    requires es != []
    ensures multiset(Indices(es)) == multiset{es[0].index} + multiset(Indices(es[1..]))
  {
    assert Indices(es) == [es[0].index] + Indices(es[1..]);
  }

  lemma IndicesRemove(es: seq<Entry>, k: nat)
    requires k < |es|
    ensures multiset(Indices(es)) == multiset{es[k].index} + multiset(Indices(es[..k] + es[k + 1..]))
  {
    var ids := Indices(es);
    assert Indices(es[..k] + es[k + 1..]) == ids[..k] + ids[k + 1..];
    RemoveAt(ids, k);
  }

  lemma DistinctMultiset(s: seq<int>, t: seq<int>)
    requires multiset(s) == multiset(t)
    ensures Distinct(s) ==> Distinct(t)
  {
    if Distinct(s) {
      forall i, j | 0 <= i < j < |t| ensures t[i] != t[j] {
        DistinctMultiplicity(s, t[i]);
        RepeatedMultiplicity(t, i, j);
      }
    }
  }

  // ----- the printer

  predicate IsDefault(v: FieldValue) { if v.Ints? then v.dims == [] else v.n == 0 }

  /** The entries printed for the first `n` fields: those that differ from their default. */
  function Printed(values: seq<FieldValue>, n: nat): (es: seq<Entry>)
    requires n <= |values|
    ensures forall k :: 0 <= k < |es| ==> es[k].index < n && es[k].value == values[es[k].index] && !IsDefault(es[k].value)
  {
    if n == 0 then [] else Printed(values, n - 1) + (if IsDefault(values[n - 1]) then [] else [Entry(n - 1, values[n - 1])])
  }

  lemma {:induction false} PrintedDistinct(values: seq<FieldValue>, n: nat)
    requires n <= |values|
    ensures Distinct(Indices(Printed(values, n)))
  {
    if n > 0 {
      PrintedDistinct(values, n - 1);
      var before := Printed(values, n - 1);
      InitLast(before, []);
      IndicesSnoc(before, Entry(n - 1, values[n - 1]));
      DistinctSnoc(Indices(before), n - 1);
    }
  }

  lemma IndicesSnoc(es: seq<Entry>, e: Entry)
    ensures Indices(es + [e]) == Indices(es) + [e.index]
  {
  }

  lemma {:induction false} PrintedComplete(values: seq<FieldValue>, n: nat, i: nat)
    requires i < n <= |values| && !IsDefault(values[i])
    ensures Entry(i, values[i]) in Printed(values, n)
  {
    var before, e := Printed(values, n - 1), Entry(i, values[i]);
    if i < n - 1 {
      PrintedComplete(values, n - 1, i);
      InitLast(before, []);
      InConcat(before, [Entry(n - 1, values[n - 1])], e);
    } else {
      InConcat(before, [e], e);
    }
  }

  lemma PrintedOk(schema: seq<Field>, values: seq<FieldValue>, n: nat)
    requires WellTyped(schema, values) && n <= |values|
    ensures EntriesOk(schema, Printed(values, n))
  {
  }

  function PrintedTokens(schema: seq<Field>, values: seq<FieldValue>): seq<Token>
    requires WellTyped(schema, values)
  {
    [Less] + BodyTokens(schema, values, |values|) + [Greater]
  }

  method PrintList(xs: seq<int>) returns (ts: seq<Token>)
    ensures ts == [LSquare] + ListTokens(xs) + [RSquare]
  {
    ts := [LSquare];
    for i := 0 to |xs|
      invariant ts == [LSquare] + ListTokens(xs[..i])
    {
      ListSnoc(xs[..i], xs[i]);
      assert xs[..i + 1] == xs[..i] + [xs[i]];
      if i > 0 { ts := ts + [Comma]; }
      ts := ts + [IntToken(xs[i])];
    }
    assert xs[..|xs|] == xs;
    ts := ts + [RSquare];
  }

  lemma {:induction false} ListSnoc(xs: seq<int>, x: int)
    ensures ListTokens(xs + [x]) == ListTokens(xs) + (if xs == [] then [] else [Comma]) + [IntToken(x)]
  {
    if |xs| >= 1 {
      assert (xs + [x])[1..] == xs[1..] + [x];
      ListSnoc(xs[1..], x);
    }
  }

  lemma {:induction false} EntriesSnoc(schema: seq<Field>, es: seq<Entry>, e: Entry)
    requires EntriesOk(schema, es) && EntriesOk(schema, [e])
    ensures EntriesOk(schema, es + [e])
    ensures e.index < |schema|
    ensures EntriesTokens(schema, es + [e]) == EntriesTokens(schema, es) + (if es == [] then [] else [Comma]) + EntryTokens(schema, e)
  {
    assert [e][0] == e;
    if |es| >= 1 {
      assert (es + [e])[1..] == es[1..] + [e];
      EntriesSnoc(schema, es[1..], e);
      SnocAlgebra(EntryTokens(schema, es[0]), EntriesTokens(schema, es[1..]), EntryTokens(schema, e));
    }
  }

  lemma SnocAlgebra(a: seq<Token>, b: seq<Token>, c: seq<Token>)
    ensures a + [Comma] + (b + [Comma] + c) == (a + [Comma] + b) + [Comma] + c
    ensures a + [Comma] + (b + [] + c) == a + [Comma] + b + c
  {
  }

  function FieldText(field: Field, value: FieldValue, separator: seq<Token>): seq<Token> {
    if IsDefault(value) then [] else separator + FieldTokens(field, value)
  }

  /** One field: nothing for a default value, otherwise the separator so far and the entry. */
  method PrintField(field: Field, value: FieldValue, separator: seq<Token>) returns (ts: seq<Token>, separator': seq<Token>)
    ensures ts == FieldText(field, value, separator)
    ensures separator' == if IsDefault(value) then separator else [Comma]
  {
    separator' := [Comma];
    match value
    case Num(n) =>
      if n == 0 { return [], separator; }
      ts := separator + ([Keyword(field.name), Equal] + [IntToken(n)]);
    case Ints(xs) =>
      if xs == [] { return [], separator; }
      var list := PrintList(xs);
      ts := separator + ([Keyword(field.name), Equal] + list);
  }

  method PrintStruct(schema: seq<Field>, values: seq<FieldValue>) returns (ts: seq<Token>)
    requires WellTyped(schema, values)
    ensures ts == PrintedTokens(schema, values)
  {
    var separator := [];
    var body := [];
    for n := 0 to |schema|
      invariant body == BodyTokens(schema, values, n) && separator == SeparatorAfter(values, n)
    {
      var entry;
      entry, separator := PrintNext(schema, values, n, separator);
      body := body + entry;
    }
    return [Less] + body + [Greater];
  }

  method PrintNext(schema: seq<Field>, values: seq<FieldValue>, n: nat, separator: seq<Token>) returns (entry: seq<Token>, separator': seq<Token>)
    requires WellTyped(schema, values) && n < |schema| && separator == SeparatorAfter(values, n)
    ensures BodyTokens(schema, values, n + 1) == BodyTokens(schema, values, n) + entry
    ensures separator' == SeparatorAfter(values, n + 1)
  {
    entry, separator' := PrintField(schema[n], values[n], separator);
    PrintedSnoc(schema, values, n);
  }

  function BodyTokens(schema: seq<Field>, values: seq<FieldValue>, n: nat): seq<Token>
    requires WellTyped(schema, values) && n <= |values|
  {
    PrintedOk(schema, values, n);
    EntriesTokens(schema, Printed(values, n))
  }

  function SeparatorAfter(values: seq<FieldValue>, n: nat): seq<Token>
    requires n <= |values|
  {
    if Printed(values, n) == [] then [] else [Comma]
  }

  lemma PrintedSnoc(schema: seq<Field>, values: seq<FieldValue>, n: nat)
    requires WellTyped(schema, values) && n < |values|
    ensures BodyTokens(schema, values, n + 1) == BodyTokens(schema, values, n)
            + FieldText(schema[n], values[n], SeparatorAfter(values, n))
    ensures SeparatorAfter(values, n + 1) == if IsDefault(values[n]) then SeparatorAfter(values, n) else [Comma]
  {
    var es, e := Printed(values, n), Entry(n, values[n]);
    PrintedOk(schema, values, n);
    PrintedOk(schema, values, n + 1);
    if IsDefault(values[n]) {
      InitLast<Entry>(es, []);
      InitLast<Token>(EntriesTokens(schema, es), []);
    } else {
      EntriesSnoc(schema, es, e);
      ConcatAssociative(EntriesTokens(schema, es), if es == [] then [] else [Comma], EntryTokens(schema, e));
    }
  }

  /** Printing and parsing back gives the same values, defaults that were left out included. */
  lemma {:induction false} StructRoundTrip(schema: seq<Field>, values: seq<FieldValue>, rest: seq<Token>)
    requires DistinctNames(schema) && WellTyped(schema, values)
    ensures var ts := PrintedTokens(schema, values) + rest;
            && ts[0] == Less
            && ParseFields(schema, ts[1..], NoneSeen(schema), Defaults(schema)) == Some((values, rest))
  {
    var es, none := Printed(values, |values|), NoneSeen(schema);
    PrintedOk(schema, values, |values|);
    Peel(EntriesTokens(schema, es), rest);
    PrintedDistinct(values, |values|);
    EntriesParse(schema, es, none, Defaults(schema), rest);
    FreshIffDistinct(es, none);
    var parsed := Assign(Defaults(schema), es);
    forall i | 0 <= i < |values| ensures parsed[i] == values[i] {
      AssignMeaning(Defaults(schema), es, i);
      if IsDefault(values[i]) {
        DefaultIs(schema[i], values[i]);
        assert forall k :: 0 <= k < |es| ==> es[k].index != i;
      } else {
        PrintedComplete(values, |values|, i);
        assert Entry(i, values[i]) in es;
      }
    }
    assert parsed == values;
  }

  lemma Peel(body: seq<Token>, rest: seq<Token>)
    ensures var ts := [Less] + body + [Greater] + rest; ts[0] == Less && ts[1..] == body + [Greater] + rest
  {
    assert [Less] + body + [Greater] + rest == [Less] + (body + [Greater] + rest);
  }

  lemma DefaultIs(field: Field, v: FieldValue)
    requires HasType(field, v) && IsDefault(v)
    ensures v == Default(field)
  {
  }

  /** Every field, whether or not it has its default value. */
  function AllEntries(values: seq<FieldValue>): (es: seq<Entry>)
    ensures |es| == |values| && forall i :: 0 <= i < |es| ==> es[i] == Entry(i, values[i])
  {
    seq(|values|, i requires 0 <= i < |values| => Entry(i, values[i]))
  }

  /** Printing every field is read back too. */
  lemma {:induction false} AllEntriesRoundTrip(schema: seq<Field>, values: seq<FieldValue>, rest: seq<Token>)
    requires DistinctNames(schema) && WellTyped(schema, values)
    ensures EntriesOk(schema, AllEntries(values))
    ensures ParseFields(schema, EntriesTokens(schema, AllEntries(values)) + [Greater] + rest, NoneSeen(schema), Defaults(schema))
            == Some((values, rest))
  {
    var es, none := AllEntries(values), NoneSeen(schema);
    EntriesParse(schema, es, none, Defaults(schema), rest);
    FreshIffDistinct(es, none);
    var parsed := Assign(Defaults(schema), es);
    forall i | 0 <= i < |values| ensures parsed[i] == values[i] {
      AssignMeaning(Defaults(schema), es, i);
      assert es[i].index == i;
    }
    assert parsed == values;
  }

  // ----- the printed text

  /** The pieces that are not empty, in order, separated by commas. */
  function Joined(pieces: seq<seq<Token>>): seq<Token> {
    if pieces == [] then []
    else
      var before, last := Joined(pieces[..|pieces| - 1]), pieces[|pieces| - 1];
      if last == [] then before else if before == [] then last else before + [Comma] + last
  }

  /** A list field, unless it is empty. */
  function ListPiece(name: string, xs: seq<int>): seq<Token> {
    if xs == [] then [] else [Keyword(name), Equal, LSquare] + ListTokens(xs) + [RSquare]
  }

  /** An integer field, unless it is 0. */
  function NumberPiece(name: string, n: int): seq<Token> {
    if n == 0 then [] else [Keyword(name), Equal, IntToken(n)]
  }

  /** A list is printed as its numbers with commas between them. */
  lemma {:induction false} ListTokensAt(xs: seq<int>, k: nat)
    requires k < |xs|
    ensures |ListTokens(xs)| == 2 * |xs| - 1
    ensures ListTokens(xs)[2 * k] == IntToken(xs[k]) && (k >= 1 ==> ListTokens(xs)[2 * k - 1] == Comma)
  {
    if |xs| > 1 { ListTokensAt(xs[1..], if k >= 1 then k - 1 else 0); }
  }

  /** The printed struct is its non-default fields, joined. */
  lemma {:induction false} PrintedIsJoined(schema: seq<Field>, values: seq<FieldValue>, pieces: seq<seq<Token>>)
    requires WellTyped(schema, values) && |pieces| <= |values|
    requires forall i :: 0 <= i < |pieces| ==> IsPiece(pieces[i], schema[i], values[i])
    ensures BodyTokens(schema, values, |pieces|) == Joined(pieces)
  {
    if pieces != [] {
      var n := |pieces| - 1;
      PrintedIsJoined(schema, values, pieces[..n]);
      NextPiece(schema, values, n, |pieces|, pieces[n], Joined(pieces[..n]));
    }
  }

  predicate IsPiece(piece: seq<Token>, field: Field, value: FieldValue) {
    piece == if IsDefault(value) then [] else FieldTokens(field, value)
  }

  lemma NextPiece(schema: seq<Field>, values: seq<FieldValue>, n: nat, next: nat, piece: seq<Token>, before: seq<Token>)
    requires WellTyped(schema, values) && n < |values| && next == n + 1 && IsPiece(piece, schema[n], values[n])
    requires before == BodyTokens(schema, values, n)
    ensures BodyTokens(schema, values, next)
            == if piece == [] then before else if before == [] then piece else before + [Comma] + piece
  {
    PrintedSnoc(schema, values, n);
    BodyEmptyIff(schema, values, n);
    InitLast<Token>(before, []);
    if before == [] {
      assert [] + ([] + piece) == piece;
    } else {
      ConcatAssociative(before, [Comma], piece);
    }
  }

  lemma BodyEmptyIff(schema: seq<Field>, values: seq<FieldValue>, n: nat)
    requires WellTyped(schema, values) && n <= |values|
    ensures SeparatorAfter(values, n) == if BodyTokens(schema, values, n) == [] then [] else [Comma]
  {
  }

  lemma FieldPiece(field: Field, v: FieldValue)
    requires HasType(field, v)
    ensures IsPiece(if v.Ints? then ListPiece(field.name, v.dims) else NumberPiece(field.name, v.n), field, v)
  {
  }
}
