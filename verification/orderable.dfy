/** `OrderableSpecification<TEntity, TProperty>`: the view `OrderBy` hands back so that
    `ThenBy` / `ThenByDescending` can be chained. The wrapper holds nothing but a
    reference to one specification: every member reads or writes that record, and
    each `ThenBy*` returns a new wrapper around the same record. With records
    modelled as values, "the same record" is the updated record. */
module Orderable {
  import opened Specification

  /** The wrapper; `spec` is `GetSpecification()`. */
  datatype Orderable = Orderable(spec: Spec)

  /** `ThenBy(k)`: append `(k, ascending)` to the order keys. */
  function ThenBy(w: Orderable, k: KeySelector): (r: Orderable)
    ensures r.spec.orderByExpressions == w.spec.orderByExpressions + [OrderKey(k, false)]
    ensures AgreeExcept(w.spec, r.spec, ThenByField)
  {
    Orderable(Apply(w.spec, AppendThenBy(k, false)))
  }

  /** `ThenByDescending(k)`: append `(k, descending)` to the order keys. */
  function ThenByDescending(w: Orderable, k: KeySelector): (r: Orderable)
    ensures r.spec.orderByExpressions == w.spec.orderByExpressions + [OrderKey(k, true)]
    ensures AgreeExcept(w.spec, r.spec, ThenByField)
  {
    Orderable(Apply(w.spec, AppendThenBy(k, true)))
  }

  /** Every other member (`Criteria`, the flags, the slots, `PrimaryKey`, the
      `Add*` and `Set*` methods) forwards to the wrapped record: the member's own
      field takes its argument and no other field of the record moves, so in
      particular no forwarded member touches the `ThenBy` keys. */
  function Forward(w: Orderable, e: Edit): (r: Orderable)
    ensures Shows(w.spec, r.spec, e)
    ensures AgreeExcept(w.spec, r.spec, Writes(e))
    ensures !e.AppendThenBy? ==> r.spec.orderByExpressions == w.spec.orderByExpressions
  {
    Orderable(Apply(w.spec, e))
  }

  /** One call of a chain: `ThenBy` or `ThenByDescending`, or a forwarded member. */
  datatype Call = Then(key: OrderKey) | Member(edit: Edit)

  function Step(w: Orderable, c: Call): Orderable {
    match c
    case Then(OrderKey(k, d)) => if d then ThenByDescending(w, k) else ThenBy(w, k)
    case Member(e) => Forward(w, e)
  }

  /** A fluent chain of calls, each on the wrapper the previous one returned. */
  function Chain(w: Orderable, cs: seq<Call>): Orderable
    decreases |cs|
  {
    if |cs| == 0 then w else Chain(Step(w, cs[0]), cs[1..])
  }

  /** The edit a call makes to the wrapped record. */
  function EditOf(c: Call): (e: Edit)
    ensures c.Then? ==> e == AppendThenBy(c.key.key, c.key.isDescending)
  {
    match c
    case Then(OrderKey(k, d)) => AppendThenBy(k, d)
    case Member(e) => e
  }

  function EditsOf(cs: seq<Call>): (es: seq<Edit>)
    ensures |es| == |cs|
    ensures forall i :: 0 <= i < |cs| ==> es[i] == EditOf(cs[i])
  {
    if |cs| == 0 then [] else [EditOf(cs[0])] + EditsOf(cs[1..])
  }

  /** The wrapper is transparent: a chain of calls through wrappers leaves the
      record exactly as the same edits made on the record directly. */
  lemma {:induction false} ChainIsTransparent(w: Orderable, cs: seq<Call>)
    ensures Chain(w, cs).spec == ApplyAll(w.spec, EditsOf(cs))
    decreases |cs|
  {
    if |cs| > 0 {
      assert Step(w, cs[0]).spec == Apply(w.spec, EditOf(cs[0]));
      assert EditsOf(cs)[1..] == EditsOf(cs[1..]);
      ChainIsTransparent(Step(w, cs[0]), cs[1..]);
    }
  }

  /** The calls of a chain of `ThenBy` / `ThenByDescending`. */
  function ThenCalls(keys: seq<OrderKey>): (cs: seq<Call>)
    ensures |cs| == |keys|
    ensures forall i :: 0 <= i < |cs| ==> cs[i] == Then(keys[i])
  {
    if |keys| == 0 then [] else [Then(keys[0])] + ThenCalls(keys[1..])
  }

  /** One `ThenBy` / `ThenByDescending` call appends its key and changes nothing
      else in the record. */
  lemma ThenStep(w: Orderable, key: OrderKey)
    ensures Step(w, Then(key)).spec == w.spec.(orderByExpressions := w.spec.orderByExpressions + [key])
  {
    assert Step(w, Then(key)).spec == Apply(w.spec, AppendThenBy(key.key, key.isDescending));
  }

  /** Chained `ThenBy` / `ThenByDescending` calls accumulate on the one shared
      list, in call order, and change nothing else. */
  lemma {:induction false} ThenChainAccumulates(w: Orderable, keys: seq<OrderKey>)
    ensures Chain(w, ThenCalls(keys)).spec == w.spec.(orderByExpressions := w.spec.orderByExpressions + keys)
    decreases |keys|
  {
    if |keys| > 0 {
      var w1 := Step(w, Then(keys[0]));
      assert Chain(w, ThenCalls(keys)) == Chain(w1, ThenCalls(keys[1..])) by {
        var cs := ThenCalls(keys);
        assert cs[0] == Then(keys[0]) && cs[1..] == ThenCalls(keys[1..]);
      }
      ThenStep(w, keys[0]);
      ThenChainAccumulates(w1, keys[1..]);
      assert w.spec.orderByExpressions + [keys[0]] + keys[1..] == w.spec.orderByExpressions + keys;
    }
  }
}
