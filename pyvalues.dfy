/** The Python values that reach a control's setters and the attribute
    dictionaries produced from the exported VI strings. Library types are
    opaque here: a float is a real number, a `pathlib.Path` is its string
    form, a `datetime` is its textual form and a one-dimensional numpy array
    is the sequence of its elements. */
module PyValues {
  import opened Dicts

  datatype Value =
    | NoneV
    | BoolV(b: bool)
    | IntV(i: int)
    | FloatV(r: real)
    | StrV(s: string)
    | PathV(p: string)
    | DateTimeV(stamp: string)
    | TupleV(elems: seq<Value>)
    | ListV(elems: seq<Value>)
    | DictV(entries: Dict<Value, Value>)
    | NdArrayV(elems: seq<Value>)
    /** The 0-d array of dtype object that `np.array` makes of a value it
        does not iterate into, such as a dict. */
    | ObjectArrayV(obj: Value)

  /** The exceptions the core raises, by their Python class. */
  datatype Error =
    | KeyError(key: Value)
    | TypeError(culprit: Value)
    | ValueError(culprit: Value)
    | IndexError(index: int)
    /** An attribute or element that is looked up but absent. */
    | AttributeError(attr: string)
    /** The `AttributeError` raised on reassigning a read-only attribute. */
    | CannotSet(attr: string)
    /** A local variable read before any assignment. */
    | UnboundLocalError(variable: string)

  datatype Result<+T> = Ok(value: T) | Err(error: Error) {
    predicate IsFailure() { Err? }
    function PropagateFailure<U>(): Result<U> requires Err? { Err(error) }
    function Extract(): T requires Ok? { value }
  }

  /** `isinstance(v, numbers.Number)`: `bool` is a subclass of `int`. */
  predicate IsNumber(v: Value) {
    v.BoolV? || v.IntV? || v.FloatV?
  }

  /** `isinstance(v, int)`, which also holds of `True` and `False`. */
  predicate IsInt(v: Value) {
    v.BoolV? || v.IntV?
  }

  /** The integer a Python `int` (or `bool`) stands for. */
  function IntOf(v: Value): int
    requires IsInt(v)
  {
    if v.BoolV? then (if v.b then 1 else 0) else v.i
  }

  /** Whether `for x in v` runs: every value with an `__iter__` except a
      0-d array, whose iteration raises TypeError. */
  predicate IsIterable(v: Value) {
    v.StrV? || v.TupleV? || v.ListV? || v.DictV? || v.NdArrayV?
  }

  /** `hasattr(v, "__iter__")` */
  predicate HasIter(v: Value) {
    IsIterable(v) || v.ObjectArrayV?
  }

  /** The one-character strings of `s`, as iterating a `str` yields them. */
  function Chars(s: string): (r: seq<Value>)
    ensures |r| == |s|
    ensures forall i :: 0 <= i < |s| ==> r[i] == StrV([s[i]])
  {
    if s == [] then [] else [StrV([s[0]])] + Chars(s[1..])
  }

  /** What `for x in v` visits: characters, elements, or a dict's keys. */
  function Iterate(v: Value): (r: Option<seq<Value>>)
    ensures r.Some? <==> IsIterable(v)
  {
    match v
    case StrV(s) => Some(Chars(s))
    case TupleV(xs) => Some(xs)
    case ListV(xs) => Some(xs)
    case NdArrayV(xs) => Some(xs)
    case DictV(d) => Some(Keys(d))
    case _ => None
  }

  /** Python sequence indexing: negative indices count from the end. */
  function PyIndex(n: nat, i: int): (r: Option<nat>)
    ensures r.Some? <==> -(n as int) <= i < n
    ensures r.Some? ==> r.value < n && (r.value == i || r.value == n + i)
  {
    if 0 <= i < n then Some(i) else if -(n as int) <= i < 0 then Some(n + i) else None
  }

  /** Whether `v` can be a dict key (lists, dicts and arrays cannot). */
  predicate Hashable(v: Value) {
    match v
    case ListV(_) => false
    case DictV(_) => false
    case NdArrayV(_) => false
    case ObjectArrayV(_) => false
    case TupleV(xs) => forall i :: 0 <= i < |xs| ==> Hashable(xs[i])
    case _ => true
  }

  /** The number a `bool`, `int` or `float` stands for. */
  function NumberOf(v: Value): real
    requires IsNumber(v)
  {
    match v
    case BoolV(b) => if b then 1.0 else 0.0
    case IntV(i) => i as real
    case FloatV(r) => r
  }

  /** The truth of Python's `x == y` on two values: numbers compare by
      the number they stand for whatever their type (`0 == 0.0`,
      `True == 1`), tuples and lists element by element, dicts by their
      entries whatever their order, and any two values of other kinds
      only when they are identical. Arrays are compared as their
      elements here; the elementwise result `==` gives on an array is
      taken by `Datatypes.TestTruth`. */
  function ValueEq(x: Value, y: Value): (r: bool)
    decreases x
  {
    if IsNumber(x) || IsNumber(y) then IsNumber(x) && IsNumber(y) && NumberOf(x) == NumberOf(y)
    else match x
      case TupleV(xs) => y.TupleV? && ElemsEq(xs, y.elems)
      case ListV(xs) => y.ListV? && ElemsEq(xs, y.elems)
      case NdArrayV(xs) => y.NdArrayV? && ElemsEq(xs, y.elems)
      case ObjectArrayV(o) => y.ObjectArrayV? && ValueEq(o, y.obj)
      case DictV(d) => y.DictV? && EntriesEq(d, y.entries)
      case _ => x == y
  }

  /** Equal lengths and `==` position by position. */
  function ElemsEq(xs: seq<Value>, ys: seq<Value>): (r: bool)
    ensures r ==> |xs| == |ys|
    decreases xs
  {
    if xs == [] then ys == []
    else ys != [] && ValueEq(xs[0], ys[0]) && ElemsEq(xs[1..], ys[1..])
  }

  /** Two dicts are `==` when each entry of one has an entry of the other
      with an equal key and an equal value, and they have as many
      entries (keys are distinct, so this is a matching). */
  function EntriesEq(d: Dict<Value, Value>, e: Dict<Value, Value>): (r: bool)
    decreases d, 1
  {
    |d| == |e| && EntriesIn(d, e)
  }

  /** Each entry of `d` has an equal entry in `e`. */
  function EntriesIn(d: Dict<Value, Value>, e: Dict<Value, Value>): (r: bool)
    decreases d, 0
  {
    d == [] || (HasEqualEntry(d[0], e) && EntriesIn(d[1..], e))
  }

  /** Some entry of `e` has a key `==` to `kv.0` and a value `==` to `kv.1`. */
  function HasEqualEntry(kv: (Value, Value), e: Dict<Value, Value>): (r: bool)
    decreases kv, e
  {
    e != [] && ((ValueEq(kv.0, e[0].0) && ValueEq(kv.1, e[0].1)) || HasEqualEntry(kv, e[1..]))
  }

  /** Every value is `==` to itself (floats are reals here, so there is
      no NaN). */
  lemma {:induction false} ValueEqReflexive(x: Value)
    ensures ValueEq(x, x)
    decreases x, 2
  {
    match x
    case TupleV(xs) => ElemsEqReflexive(xs);
    case ListV(xs) => ElemsEqReflexive(xs);
    case NdArrayV(xs) => ElemsEqReflexive(xs);
    case ObjectArrayV(o) => ValueEqReflexive(o);
    case DictV(d) => EntriesInSub(d, d);
    case _ =>
  }

  lemma {:induction false} ElemsEqReflexive(xs: seq<Value>)
    ensures ElemsEq(xs, xs)
    decreases xs, 0
  {
    if xs != [] {
      ValueEqReflexive(xs[0]);
      ElemsEqReflexive(xs[1..]);
    }
  }

  /** Every entry of `s` that is an entry of `e` has its equal in `e`. */
  lemma {:induction false} EntriesInSub(s: Dict<Value, Value>, e: Dict<Value, Value>)
    requires forall kv :: kv in s ==> kv in e
    ensures EntriesIn(s, e)
    decreases s, 1
  {
    if s != [] {
      HasEqualEntryOf(s[0], e);
      EntriesInSub(s[1..], e);
    }
  }

  lemma {:induction false} HasEqualEntryOf(kv: (Value, Value), e: Dict<Value, Value>)
    requires kv in e
    ensures HasEqualEntry(kv, e)
    decreases kv, e
  {
    if e[0] == kv {
      ValueEqReflexive(kv.0);
      ValueEqReflexive(kv.1);
    } else {
      HasEqualEntryOf(kv, e[1..]);
    }
  }

  /** Position of the first element equal to `x` (`list.index`). */
  function IndexOf(xs: seq<Value>, x: Value): (r: Option<nat>)
    ensures r.Some? ==> r.value < |xs| && xs[r.value] == x
    ensures r.Some? ==> forall j :: 0 <= j < r.value ==> xs[j] != x
    ensures r.None? ==> forall j :: 0 <= j < |xs| ==> xs[j] != x
  {
    if xs == [] then None
    else if xs[0] == x then Some(0)
    else match IndexOf(xs[1..], x)
      case None => None
      case Some(i) => Some(i + 1)
  }
}
