/** Records as the store hands them to the pages, plus the small generic
    helpers (optional values, counting, filtering) the pages share. */
module Records {

  datatype Option<+T> = None | Some(value: T)

  /** The outcome of an operation that may throw in the source. */
  datatype Result<+T> = Ok(value: T) | Failure(error: string)

  /** A field value as it can reach the store helpers: a string, a JavaScript
      Date object (carried by its UTC calendar day, None for an Invalid Date),
      a number, or a linked-record array. */
  datatype Value =
    | Text(s: string)
    | DateObject(utcDay: Option<int>)
    | Number(n: int)
    | Links(ids: seq<string>)

  /** JavaScript truthiness of a present field value: the empty string and 0
      are falsy; objects and arrays (even empty ones) are truthy. */
  predicate Truthy(v: Value) {
    match v
    case Text(s) => s != ""
    case Number(n) => n != 0
    case DateObject(_) => true
    case Links(_) => true
  }

  /** A stored record: its id and its field map (absent keys are undefined). */
  datatype Record = Record(id: string, fields: map<string, Value>)

  const ASSIGNMENT_ID := "Assignment ID"
  const ASSIGNMENT := "Assignment"
  const COMPLETION_DATE := "Completion Date"
  const CLIENT_EMAIL := "Client Email"
  const NOTES := "Notes"

  /** The field as a string, when it is present and holds a string. */
  function TextField(r: Record, name: string): (t: Option<string>)
    ensures t.Some? <==> name in r.fields && r.fields[name].Text?
    ensures t.Some? ==> r.fields[name] == Text(t.value)
  {
    if name in r.fields && r.fields[name].Text? then Some(r.fields[name].s) else None
  }

  /** Number of elements of `xs` satisfying `f`. */
  function Count<T>(xs: seq<T>, f: T -> bool): (n: nat)
    ensures n <= |xs|
    decreases |xs|
  {
    if |xs| == 0 then 0
    else (if f(xs[0]) then 1 else 0) + Count(xs[1..], f)
  }

  /** Nothing is counted exactly when no element qualifies. */
  lemma {:induction false} CountZero<T>(xs: seq<T>, f: T -> bool)
    ensures Count(xs, f) == 0 <==> forall i :: 0 <= i < |xs| ==> !f(xs[i])
    decreases |xs|
  {
    if |xs| > 0 {
      CountZero(xs[1..], f);
      assert forall i :: 1 <= i < |xs| ==> xs[1..][i - 1] == xs[i];
    }
  }

  /** The elements of `xs` satisfying `f`, in order. */
  function Filter<T>(xs: seq<T>, f: T -> bool): (ys: seq<T>)
    ensures |ys| == Count(xs, f)
    ensures forall y :: y in ys ==> y in xs && f(y)
    decreases |xs|
  {
    if |xs| == 0 then []
    else (if f(xs[0]) then [xs[0]] else []) + Filter(xs[1..], f)
  }

  lemma {:induction false} CountAppend<T>(xs: seq<T>, ys: seq<T>, f: T -> bool)
    ensures Count(xs + ys, f) == Count(xs, f) + Count(ys, f)
    decreases |xs|
  {
    if |xs| == 0 {
      assert xs + ys == ys;
    } else {
      assert (xs + ys)[1..] == xs[1..] + ys;
      CountAppend(xs[1..], ys, f);
    }
  }

  lemma {:induction false} FilterAppend<T>(xs: seq<T>, ys: seq<T>, f: T -> bool)
    ensures Filter(xs + ys, f) == Filter(xs, f) + Filter(ys, f)
    decreases |xs|
  {
    if |xs| == 0 {
      assert xs + ys == ys;
    } else {
      assert (xs + ys)[1..] == xs[1..] + ys;
      FilterAppend(xs[1..], ys, f);
    }
  }

  /** Removing the element at `i` removes its own contribution to a count. */
  lemma {:induction false} CountRemove<T>(xs: seq<T>, i: nat, f: T -> bool)
    requires i < |xs|
    ensures Count(xs[..i] + xs[i + 1..], f) == Count(xs, f) - (if f(xs[i]) then 1 else 0)
    decreases i
  {
    var ys := xs[..i] + xs[i + 1..];
    if i == 0 {
      assert ys == xs[1..];
    } else {
      CountRemove(xs[1..], i - 1, f);
      assert ys[0] == xs[0];
      assert ys[1..] == xs[1..][..i - 1] + xs[1..][i..];
    }
  }

  /** Removing an element the filter drops leaves the filter's result alone. */
  lemma FilterRemove<T>(xs: seq<T>, i: nat, f: T -> bool)
    requires i < |xs| && !f(xs[i])
    ensures Filter(xs[..i] + xs[i + 1..], f) == Filter(xs, f)
  {
    var pre, m, post := xs[..i], [xs[i]], xs[i + 1..];
    assert xs == pre + m + post;
    assert m[1..] == [];
    assert Filter(m, f) == [];
    FilterAppend(pre, m, f);
    assert Filter(pre + m, f) == Filter(pre, f);
    FilterAppend(pre + m, post, f);
    FilterAppend(pre, post, f);
  }

  /** Counting is monotone in the predicate. */
  lemma {:induction false} CountMonotone<T>(xs: seq<T>, f: T -> bool, g: T -> bool)
    requires forall x :: x in xs && f(x) ==> g(x)
    ensures Count(xs, f) <= Count(xs, g)
    decreases |xs|
  {
    if |xs| > 0 {
      assert xs[0] in xs;
      CountMonotone(xs[1..], f, g);
    }
  }
}
