/** The control value model of autolv/datatypes.py: one state datatype for a
    LabVIEW front-panel control of any kind, the `value` setters of each kind,
    the write-once descriptive attributes, the dataflow direction, the
    Cluster's ordered members and the `make_control` registry. */
module Datatypes {
  import opened Dicts
  import opened PyValues
  import opened Text

  /** READONLY_ATTRIBUTES: each may be assigned once. */
  const ReadOnlyAttributes: seq<string> :=
    ["ID", "type", "name", "description", "tip", "caption", "unitlabel"]

  /** The numbers of Python's `DataFlow` IntEnum. */
  const CONTROL_NUMBER := 1
  const INDICATOR_NUMBER := 2
  const UNKNOWN_NUMBER := 3

  /** `DataFlow`: IN is an alias of CONTROL and OUT of INDICATOR. */
  datatype DataFlow = CONTROL | INDICATOR | UNKNOWN {
    function Number(): int {
      match this
      case CONTROL => CONTROL_NUMBER
      case INDICATOR => INDICATOR_NUMBER
      case UNKNOWN => UNKNOWN_NUMBER
    }
  }

  /** `DataFlow[name]`, the lookup of an enum member by its name. */
  function DataFlowMember(name: string): (r: Option<DataFlow>)
    ensures r.Some? <==> name in ["CONTROL", "IN", "INDICATOR", "OUT", "UNKNOWN"]
    ensures r.Some? ==> r.value.Number() == if name == "IN" then CONTROL_NUMBER
                                             else if name == "OUT" then INDICATOR_NUMBER
                                             else if name == "CONTROL" then CONTROL_NUMBER
                                             else if name == "INDICATOR" then INDICATOR_NUMBER
                                             else UNKNOWN_NUMBER
  {
    if name == "CONTROL" || name == "IN" then Some(CONTROL)
    else if name == "INDICATOR" || name == "OUT" then Some(INDICATOR)
    else if name == "UNKNOWN" then Some(UNKNOWN)
    else None
  }

  // ---------------------------------------------------------------------
  // valididentifier

  /** Length of the run of word characters that starts `s`. */
  function WordRun(s: string): (n: nat)
    ensures n <= |s|
    ensures forall i :: 0 <= i < n ==> IsWordChar(s[i])
    ensures n < |s| ==> !IsWordChar(s[n])
  {
    if s != [] && IsWordChar(s[0]) then 1 + WordRun(s[1..]) else 0
  }

  /** `valididentifier(item)`: `re.match(r"^[a-zA-Z][\w]+$", item)`. The
      greedy `\w+` takes the whole run of word characters after the first
      letter and needs at least one; `$` then matches at the end of the
      string or just before a final newline. */
  function ValidIdentifier(s: string): (r: bool)
    ensures r ==> |s| >= 2 && IsAsciiLetter(s[0]) && IsWordChar(s[1])
  {
    |s| >= 2 && IsAsciiLetter(s[0]) &&
    var j := 1 + WordRun(s[1..]);
    j >= 2 && (j == |s| || (j == |s| - 1 && s[j] == '\n'))
  }

  /** The strings `valididentifier` accepts: an ASCII letter followed by at
      least one word character, optionally followed by one newline. */
  lemma ValidIdentifierCharacterized(s: string)
    ensures ValidIdentifier(s) <==>
      var core := if |s| > 0 && s[|s| - 1] == '\n' then s[..|s| - 1] else s;
      |core| >= 2 && IsAsciiLetter(core[0])
      && forall i :: 1 <= i < |core| ==> IsWordChar(core[i])
  {
  }

  /** A one-letter name is not accepted, and neither is a digit first. */
  lemma {:induction false} ValidIdentifierExamples()
    ensures !ValidIdentifier("x")
    ensures ValidIdentifier("xy") && ValidIdentifier("a_1")
    ensures !ValidIdentifier("1a") && !ValidIdentifier("a b")
  {
    assert WordRun("y") == 1;
    assert WordRun("_1") == 2;
    assert WordRun(" b") == 0;
  }

  /** The trailing newline that `$` lets through. */
  lemma {:induction false} ValidIdentifierAcceptsTrailingNewline()
    ensures ValidIdentifier("ab\n")
  {
    assert WordRun("b\n") == 1 by { assert "b\n"[1..] == "\n"; }
  }

  /** What the docstring asks for ("valid Python identifier", limited to
      names that start with an ASCII letter): an ASCII letter followed by
      any number of word characters, and nothing after them. */
  function IsIdentifier(s: string): (r: bool)
    ensures r <==> |s| >= 1 && IsAsciiLetter(s[0])
                   && forall i :: 1 <= i < |s| ==> IsWordChar(s[i])
  {
    |s| >= 1 && IsAsciiLetter(s[0]) && 1 + WordRun(s[1..]) == |s|
  }

  lemma IsIdentifierFixesBoth()
    ensures IsIdentifier("x") && !IsIdentifier("ab\n")
  {
  }

  // ---------------------------------------------------------------------
  // Control kinds

  /** The four IORefNum subclasses, which differ only in name. */
  datatype RefNumTag = IVILogicalName | VISAResourceName | SharedVariable | UDRefNum

  /** The Python class of a control (the values of `LVControl_LU`). */
  datatype ControlClass =
    | NumericClass | BooleanClass | ArrayClass | ClusterClass | StringClass
    | PathClass | TimeStampClass | EnumClass | IORefNumClass(tag: RefNumTag)
    | RingClass | NotImplClass

  /** The kind-specific state of a control. A Cluster holds its members as
      an ordered dict `_ctrls`; a NotImplControl has no `value` attribute
      until one is assigned. */
  datatype Body =
    | Numeric(value: Value)
    | Boolean(value: Value)
    | Array(value: Value)
    | Cluster(ctrls: Dict<Value, Control>)
    | String(value: Value)
    | Path(path: string)
    | TimeStamp(value: Value)
    | Enum(value: Value)
    | IORefNum(tag: RefNumTag, value: Value)
    | Ring(value: Value)
    | NotImplControl(stored: Option<Value>)

  /** An LV_Control instance: its plain attributes (the read-only ones, a
      Ring's `items` and whatever else was assigned), `_dataflow`, and the
      kind-specific state. */
  datatype Control = Control(attrs: map<string, Value>, dataflow: DataFlow, body: Body)

  function ClassOf(b: Body): ControlClass {
    match b
    case Numeric(_) => NumericClass
    case Boolean(_) => BooleanClass
    case Array(_) => ArrayClass
    case Cluster(_) => ClusterClass
    case String(_) => StringClass
    case Path(_) => PathClass
    case TimeStamp(_) => TimeStampClass
    case Enum(_) => EnumClass
    case IORefNum(tag, _) => IORefNumClass(tag)
    case Ring(_) => RingClass
    case NotImplControl(_) => NotImplClass
  }

  /** `LVControl_LU`: the declared type strings with a class of their own. */
  function LVControlLU(t: string): (r: Option<ControlClass>)
    ensures r != Some(NotImplClass)
  {
    if t == "Numeric" || t == "Slide" then Some(NumericClass)
    else if t == "Boolean" then Some(BooleanClass)
    else if t == "String" || t == "Classic DAQmx Physical Channel" then Some(StringClass)
    else if t == "Path" then Some(PathClass)
    else if t == "Time Stamp" then Some(TimeStampClass)
    else if t == "Enum" then Some(EnumClass)
    else if t == "IVI Logical Name" then Some(IORefNumClass(IVILogicalName))
    else if t == "Array" || t == "Waveform Graph" || t == "XY Graph" then Some(ArrayClass)
    else if t == "Cluster" || t == "Measurement Data" then Some(ClusterClass)
    else if t == "VISA resource name" then Some(IORefNumClass(VISAResourceName))
    else if t == "Classic Shared Variable Control" then Some(IORefNumClass(SharedVariable))
    else if t == "Ring" then Some(RingClass)
    else if t == "User Defined Refnum Tag" then Some(IORefNumClass(UDRefNum))
    else None
  }

  /** The aliases of the registry. */
  lemma LVControlLUAliases()
    ensures LVControlLU("Slide") == Some(NumericClass)
    ensures LVControlLU("Waveform Graph") == Some(ArrayClass)
    ensures LVControlLU("XY Graph") == Some(ArrayClass)
    ensures LVControlLU("Measurement Data") == Some(ClusterClass)
  {
  }

  /** Tab controls and arrays of clusters have no class of their own. */
  lemma LVControlLUUnlisted()
    ensures LVControlLU("Tab Control") == None
    ensures LVControlLU("ArrayCluster") == None
  {
  }

  /** `TimeStamp.LV_EPOCH`, 1904-01-01 UTC, as `str` shows it. */
  const LV_EPOCH: Value := DateTimeV("1904-01-01 00:00:00+00:00")

  // ---------------------------------------------------------------------
  // The value setters

  /** `self.items.index(s)` for a Ring: `items` must have been assigned.
      A list or tuple gives the position of the first element equal to the
      string, a string the position of the first occurrence of it as a
      substring; both raise ValueError when there is none, and any other
      `items` has no `index` method. */
  function RingIndex(attrs: map<string, Value>, s: string): (r: Result<Value>)
    ensures r.Ok? ==> r.value.IntV? && 0 <= r.value.i && "items" in attrs
    ensures "items" !in attrs ==> r == Err(AttributeError("items"))
    ensures "items" in attrs && (attrs["items"].ListV? || attrs["items"].TupleV?) ==>
      var xs := attrs["items"].elems;
      (r.Ok? ==> r.value.i < |xs| && xs[r.value.i] == StrV(s)
                 && forall j :: 0 <= j < r.value.i ==> xs[j] != StrV(s))
      && (r.Err? ==> r == Err(ValueError(StrV(s))) && forall j :: 0 <= j < |xs| ==> xs[j] != StrV(s))
    ensures "items" in attrs && attrs["items"].StrV? ==>
      var text := attrs["items"].s;
      (r.Ok? ==> At(text, r.value.i, s) && forall j :: 0 <= j < r.value.i ==> !At(text, j, s))
      && (r.Err? ==> r == Err(ValueError(StrV(s))) && forall j: nat :: !At(text, j, s))
    ensures "items" in attrs && !(attrs["items"].ListV? || attrs["items"].TupleV? || attrs["items"].StrV?)
            ==> r == Err(AttributeError("index"))
  {
    if "items" !in attrs then Err(AttributeError("items"))
    else match attrs["items"]
      case ListV(xs) => (match IndexOf(xs, StrV(s))
        case None => Err(ValueError(StrV(s)))
        case Some(i) => Ok(IntV(i)))
      case TupleV(xs) => (match IndexOf(xs, StrV(s))
        case None => Err(ValueError(StrV(s)))
        case Some(i) => Ok(IntV(i)))
      case StrV(text) => (match FindLit(text, s, 0)
        case None => Err(ValueError(StrV(s)))
        case Some(i) => Ok(IntV(i)))
      case _ => Err(AttributeError("index"))
  }

  /** `np.array(v)` for a value with `__iter__` other than a str: an array
      is copied, a tuple or list gives the array of its elements, and a
      dict, which numpy does not iterate into, the 0-d array holding it. */
  function ToArray(v: Value): (r: Value)
    requires HasIter(v) && !v.StrV?
    ensures IsArray(r)
    ensures v.DictV? ==> r == ObjectArrayV(v)
    ensures v.TupleV? || v.ListV? || v.NdArrayV? ==> r == NdArrayV(v.elems)
    ensures v.ObjectArrayV? ==> r == v
  {
    match v
    case DictV(_) => ObjectArrayV(v)
    case ObjectArrayV(_) => v
    case TupleV(xs) => NdArrayV(xs)
    case ListV(xs) => NdArrayV(xs)
    case NdArrayV(xs) => NdArrayV(xs)
  }

  /** The `value` setter of every class but Cluster: the test that rejects
      a value and the conversion applied to an accepted one. */
  function Convert(cls: ControlClass, attrs: map<string, Value>, v: Value): (r: Result<Body>)
    requires cls != ClusterClass
    ensures r.Ok? ==> ClassOf(r.value) == cls
  {
    match cls
    case NumericClass => if IsNumber(v) then Ok(Numeric(v)) else Err(TypeError(v))
    case BooleanClass => if v.BoolV? then Ok(Boolean(v)) else Err(TypeError(v))
    case ArrayClass =>
      if v.StrV? || !HasIter(v) then Err(TypeError(v))
      else Ok(Array(ToArray(v)))
    case StringClass => if v.StrV? then Ok(String(v)) else Err(TypeError(v))
    case PathClass =>
      (match v
       case StrV(s) => Ok(Path(s))
       case PathV(p) => Ok(Path(p))
       case _ => Err(TypeError(v)))
    case TimeStampClass => if v.DateTimeV? then Ok(TimeStamp(v)) else Err(TypeError(v))
    case EnumClass => if IsInt(v) then Ok(Enum(v)) else Err(TypeError(v))
    case IORefNumClass(tag) =>
      (match v
       case StrV(_) => Ok(IORefNum(tag, TupleV([v, IntV(0)])))
       case TupleV(_) => Ok(IORefNum(tag, v))
       case _ => Err(TypeError(v)))
    case RingClass =>
      if v.StrV? then
        (match RingIndex(attrs, v.s)
         case Ok(i) => Ok(Ring(i))
         case Err(e) => Err(e))
      else Ok(Ring(v))
    case NotImplClass => Ok(NotImplControl(Some(v)))
  }

  /** The state after an assignment and the exception it raised, if any.
      A Cluster assignment that raises part-way keeps the members it
      already assigned. */
  datatype Assigned = Assigned(ctrl: Control, error: Option<Error>)

  /** Whether an assignment to `c` left `d` with the same attributes,
      dataflow and class, and a Cluster with as many members. */
  predicate SameShape(c: Control, d: Control) {
    d.attrs == c.attrs && d.dataflow == c.dataflow && ClassOf(d.body) == ClassOf(c.body)
    && (c.body.Cluster? ==> SameNames(c.body.ctrls, d.body.ctrls))
  }

  /** Two member lists with the same names in the same order. */
  predicate SameNames(a: Dict<Value, Control>, b: Dict<Value, Control>) {
    |a| == |b| && forall i {:trigger b[i]} :: 0 <= i < |a| ==> a[i].0 == b[i].0
  }

  /** `control.value = v`. A Cluster's `__setattr__` looks for a member
      named "value" first, and assigns that member instead of the cluster. */
  function AssignValue(c: Control, v: Value): (r: Assigned)
    ensures SameShape(c, r.ctrl)
    ensures r.error.Some? && !c.body.Cluster? ==> r.ctrl == c
    ensures WellTyped(c) ==> WellTyped(r.ctrl)
    decreases c, 3
  {
    match c.body
    case Cluster(members) =>
      (match Find(members, StrV("value"))
       case Some(i) => AssignMember(c, c, i, AssignValue(members[i].1, v))
       case None =>
         if v.DictV? then UpdateMembers(c, v.entries, |v.entries|)
         else
           (match Iterate(v)
            case None => Assigned(c, Some(TypeError(v)))
            case Some(xs) =>
              AssignPositional(c, xs, if |members| < |xs| then |members| else |xs|)))
    case _ =>
      (match Convert(ClassOf(c.body), c.attrs, v)
       case Ok(b) => Assigned(c.(body := b), None)
       case Err(e) => Assigned(c, Some(e)))
  }

  /** `Cluster.update(dict)` after its first `n` entries: each named member
      receives its value in turn; an unknown name raises KeyError. Python
      dict keys are distinct, so each member is assigned from its state
      before the update. */
  function UpdateMembers(c: Control, entries: Dict<Value, Value>, n: nat): (r: Assigned)
    requires c.body.Cluster? && n <= |entries|
    ensures SameShape(c, r.ctrl)
    ensures WellTyped(c) ==> WellTyped(r.ctrl)
    decreases c, 2, n
  {
    if n == 0 then Assigned(c, None)
    else
      var prev := UpdateMembers(c, entries, n - 1);
      if prev.error.Some? then prev else UpdateEntry(c, prev.ctrl, entries[n - 1])
  }

  /** One pass of the `update` loop, `self._ctrls[name].value = x`, on the
      cluster `d` left by the earlier passes; the member it assigns is still
      the one `c` holds, since a dict names each member once. */
  function UpdateEntry(c: Control, d: Control, entry: (Value, Value)): (r: Assigned)
    requires c.body.Cluster? && SameShape(c, d)
    ensures SameShape(c, r.ctrl)
    ensures WellTyped(c) && WellTyped(d) ==> WellTyped(r.ctrl)
    decreases c, 1
  {
    var name := entry.0;
    if !Hashable(name) then Assigned(d, Some(TypeError(name)))
    else match Find(c.body.ctrls, name)
      case None => Assigned(d, Some(KeyError(name)))
      case Some(i) => AssignMember(c, d, i, AssignValue(c.body.ctrls[i].1, entry.1))
  }

  /** `self._ctrls[name].value = x` for the `i`-th member, where `m` is what
      the member's setter made of `x`: the new member takes its place in
      `d`, under the same name, and the setter's exception, if any, is
      passed on. */
  function AssignMember(c: Control, d: Control, i: nat, m: Assigned): (r: Assigned)
    requires c.body.Cluster? && SameShape(c, d) && i < |c.body.ctrls|
    ensures SameShape(c, r.ctrl)
    ensures |r.ctrl.body.ctrls| == |d.body.ctrls|
    ensures r.ctrl.body.ctrls[i] == (c.body.ctrls[i].0, m.ctrl)
    ensures forall j {:trigger r.ctrl.body.ctrls[j]} :: 0 <= j < |d.body.ctrls| && j != i ==> r.ctrl.body.ctrls[j] == d.body.ctrls[j]
    ensures r.error == m.error
    ensures WellTyped(c) && WellTyped(d) && WellTyped(m.ctrl) ==> WellTyped(r.ctrl)
  {
    ReplaceKeepsWellTyped(c, d, i, m.ctrl);
    Assigned(d.(body := Cluster(d.body.ctrls[i := (c.body.ctrls[i].0, m.ctrl)])), m.error)
  }

  /** Putting a well-typed control in place of the `i`-th member of a
      well-typed cluster, under the same name, keeps it well-typed. */
  lemma {:induction false} ReplaceKeepsWellTyped(c: Control, d: Control, i: nat, m: Control)
    requires c.body.Cluster? && SameShape(c, d) && i < |c.body.ctrls|
    ensures WellTyped(c) && WellTyped(d) && WellTyped(m) ==>
            WellTyped(d.(body := Cluster(d.body.ctrls[i := (c.body.ctrls[i].0, m)])))
  {
    if WellTyped(c) && WellTyped(d) && WellTyped(m) {
      var ms := d.body.ctrls[i := (c.body.ctrls[i].0, m)];
      assert SameNames(d.body.ctrls, ms);
      forall j | 0 <= j < |ms| ensures WellTyped(ms[j].1) {
        if j != i { assert ms[j] == d.body.ctrls[j]; }
      }
    }
  }

  /** `for c, v in zip(self._ctrls, value): self._ctrls[c].value = v`, after
      its first `n` pairs. */
  function AssignPositional(c: Control, xs: seq<Value>, n: nat): (r: Assigned)
    requires c.body.Cluster? && n <= |c.body.ctrls| && n <= |xs|
    ensures SameShape(c, r.ctrl)
    ensures WellTyped(c) ==> WellTyped(r.ctrl)
    decreases c, 2, n
  {
    if n == 0 then Assigned(c, None)
    else
      var prev := AssignPositional(c, xs, n - 1);
      if prev.error.Some? then prev
      else AssignMember(c, prev.ctrl, n - 1, AssignValue(c.body.ctrls[n - 1].1, xs[n - 1]))
  }

  // ---------------------------------------------------------------------
  // Reading a control

  /** `control.value` as read back: a Path reads as the `str` of its path,
      a Cluster as the list of its members' values in member order, and a
      NotImplControl that was never assigned raises AttributeError. */
  function ReadValue(c: Control): (r: Result<Value>)
    ensures c.body.Cluster? && r.Ok? ==> r.value.ListV? && |r.value.elems| == |c.body.ctrls|
    decreases c, 1
  {
    match c.body
    case Cluster(members) =>
      var vs :- ReadMembers(c, |members|);
      Ok(ListV(vs))
    case Path(p) => Ok(StrV(p))
    case NotImplControl(stored) =>
      if stored.Some? then Ok(stored.value) else Err(AttributeError("value"))
    case Numeric(v) => Ok(v)
    case Boolean(v) => Ok(v)
    case Array(v) => Ok(v)
    case String(v) => Ok(v)
    case TimeStamp(v) => Ok(v)
    case Enum(v) => Ok(v)
    case IORefNum(_, v) => Ok(v)
    case Ring(v) => Ok(v)
  }

  /** The values of the first `n` members, read in order; the first member
      whose read raises ends the read with its exception. */
  function ReadMembers(c: Control, n: nat): (r: Result<seq<Value>>)
    requires c.body.Cluster? && n <= |c.body.ctrls|
    ensures r.Ok? ==> |r.value| == n
    decreases c, 0, n
  {
    if n == 0 then Ok([])
    else
      var prev :- ReadMembers(c, n - 1);
      var x :- ReadValue(c.body.ctrls[n - 1].1);
      Ok(prev + [x])
  }

  /** The read of the first `n` members succeeds exactly when each of their
      reads does, and then lists their values in order; otherwise it raises
      the exception of one of them. */
  lemma {:induction false} ReadMembersFacts(c: Control, n: nat)
    requires c.body.Cluster? && n <= |c.body.ctrls|
    ensures ReadMembers(c, n).Ok? ==> forall i :: 0 <= i < n ==> ReadValue(c.body.ctrls[i].1) == Ok(ReadMembers(c, n).value[i])
    ensures ReadMembers(c, n).Ok? <==> forall i :: 0 <= i < n ==> ReadValue(c.body.ctrls[i].1).Ok?
    ensures ReadMembers(c, n).Err? ==> exists i :: 0 <= i < n && ReadValue(c.body.ctrls[i].1) == Err(ReadMembers(c, n).error)
  {
    if n > 0 {
      ReadMembersFacts(c, n - 1);
    }
  }

  /** Reading one more member, whose value is `x`, appends `x`. */
  lemma ReadMembersStep(c: Control, n: nat, values: seq<Value>, x: Value)
    requires c.body.Cluster? && n < |c.body.ctrls|
    requires ReadMembers(c, n) == Ok(values)
    requires ReadValue(c.body.ctrls[n].1) == Ok(x)
    ensures ReadMembers(c, n + 1) == Ok(values + [x])
  {
  }

  /** `Cluster.__getitem__`: an `int` (or `bool`) is a position, negative
      positions counting from the end; anything else is a member name. */
  function GetItem(c: Control, key: Value): (r: Result<Control>)
    requires c.body.Cluster?
    ensures r.Ok? ==> exists i :: 0 <= i < |c.body.ctrls| && Get(c.body.ctrls, c.body.ctrls[i].0) == Some(r.value)
    ensures IsInt(key) && !(-|c.body.ctrls| <= IntOf(key) < |c.body.ctrls|) ==> r == Err(IndexError(IntOf(key)))
    ensures !IsInt(key) ==> (r.Ok? <==> Hashable(key) && HasKey(c.body.ctrls, key))
  {
    var members := c.body.ctrls;
    if IsInt(key) then
      match PyIndex(|members|, IntOf(key))
      case None => Err(IndexError(IntOf(key)))
      case Some(i) => Lookup(members, members[i].0)
    else Lookup(members, key)
  }

  /** `self._ctrls[key]` */
  function Lookup(members: Dict<Value, Control>, key: Value): (r: Result<Control>)
    ensures r.Ok? <==> Hashable(key) && HasKey(members, key)
    ensures r.Ok? ==> Get(members, key) == Some(r.value)
    ensures Hashable(key) && !HasKey(members, key) ==> r == Err(KeyError(key))
  {
    if !Hashable(key) then Err(TypeError(key))
    else match Get(members, key)
      case None => Err(KeyError(key))
      case Some(m) => Ok(m)
  }

  /** `Cluster.index(name)`: the position of the first member with that
      name; ValueError when there is none. */
  function IndexOfMember(c: Control, key: Value): (r: Result<nat>)
    requires c.body.Cluster?
    ensures r.Ok? ==> r.value < |c.body.ctrls| && c.body.ctrls[r.value].0 == key
    ensures r.Ok? ==> forall j :: 0 <= j < r.value ==> c.body.ctrls[j].0 != key
    ensures r.Err? <==> !HasKey(c.body.ctrls, key)
    ensures r.Err? ==> r.error == ValueError(key)
  {
    match Find(c.body.ctrls, key)
    case None => Err(ValueError(key))
    case Some(i) => Ok(i)
  }

  /** `name in cluster`, a dict membership test. */
  function ContainsMember(c: Control, key: Value): (r: Result<bool>)
    requires c.body.Cluster?
    ensures r.Ok? <==> Hashable(key)
    ensures r.Ok? ==> (r.value <==> exists i :: 0 <= i < |c.body.ctrls| && c.body.ctrls[i].0 == key)
  {
    if !Hashable(key) then Err(TypeError(key)) else Ok(HasKey(c.body.ctrls, key))
  }

  /** `len(cluster)` */
  function Length(c: Control): nat
    requires c.body.Cluster?
  {
    |c.body.ctrls|
  }

  /** `bool(cluster)`: `len(self) > 0`. */
  function Truth(c: Control): (r: bool)
    requires c.body.Cluster?
    ensures r <==> c.body.ctrls != []
  {
    Length(c) > 0
  }

  /** `str(ioref)`: the first component of the stored tuple. */
  function IORefNumDisplay(c: Control): (r: Result<Value>)
    requires c.body.IORefNum? && c.body.value.TupleV?
    ensures r.Ok? <==> |c.body.value.elems| > 0
    ensures r.Ok? ==> r.value == c.body.value.elems[0]
  {
    var xs := c.body.value.elems;
    if |xs| > 0 then Ok(xs[0]) else Err(IndexError(0))
  }

  /** `str(ring)`: `self.items[self.value]`, Python indexing with
      negative positions counting from the end; a string `items` gives
      the character at that position. */
  function RingDisplay(c: Control): (r: Result<Value>)
    requires c.body.Ring?
    ensures "items" !in c.attrs ==> r == Err(AttributeError("items"))
    ensures ("items" in c.attrs && !IsInt(c.body.value)
             && (c.attrs["items"].ListV? || c.attrs["items"].TupleV? || c.attrs["items"].StrV?))
            ==> r == Err(TypeError(c.body.value))
    ensures "items" in c.attrs && (c.attrs["items"].ListV? || c.attrs["items"].TupleV?) && IsInt(c.body.value) ==>
      var xs := c.attrs["items"].elems; var i := IntOf(c.body.value);
      (0 <= i < |xs| ==> r == Ok(xs[i]))
      && (-|xs| <= i < 0 ==> r == Ok(xs[|xs| + i]))
      && (!(-|xs| <= i < |xs|) ==> r == Err(IndexError(i)))
    ensures "items" in c.attrs && c.attrs["items"].StrV? && IsInt(c.body.value) ==>
      var text := c.attrs["items"].s; var i := IntOf(c.body.value);
      (0 <= i < |text| ==> r == Ok(StrV([text[i]])))
      && (-|text| <= i < 0 ==> r == Ok(StrV([text[|text| + i]])))
      && (!(-|text| <= i < |text|) ==> r == Err(IndexError(i)))
  {
    if "items" !in c.attrs then Err(AttributeError("items"))
    else
      var items := c.attrs["items"];
      if !(items.ListV? || items.TupleV? || items.StrV?) then Err(TypeError(items))
      else if !IsInt(c.body.value) then Err(TypeError(c.body.value))
      else if items.StrV? then
        (match PyIndex(|items.s|, IntOf(c.body.value))
         case None => Err(IndexError(IntOf(c.body.value)))
         case Some(i) => Ok(StrV([items.s[i]])))
      else match PyIndex(|items.elems|, IntOf(c.body.value))
        case None => Err(IndexError(IntOf(c.body.value)))
        case Some(i) => Ok(items.elems[i])
  }

  // ---------------------------------------------------------------------
  // Assigning attributes and the dataflow

  /** `setattr(control, item, v)`. A Cluster first looks for a member of
      that name, then treats `value` as a whole-cluster write; every other
      class sends `value` to its setter. A read-only attribute that is
      already present cannot be assigned again; any other attribute is
      stored. */
  function SetAttribute(c: Control, item: string, v: Value): (r: Assigned)
    ensures r.ctrl.dataflow == c.dataflow && ClassOf(r.ctrl.body) == ClassOf(c.body)
    ensures item in ReadOnlyAttributes && item in c.attrs
            && !(c.body.Cluster? && HasKey(c.body.ctrls, StrV(item)))
            ==> r == Assigned(c, Some(CannotSet(item)))
  {
    if c.body.Cluster? && HasKey(c.body.ctrls, StrV(item)) then
      var i := Find(c.body.ctrls, StrV(item)).value;
      var m := AssignValue(c.body.ctrls[i].1, v);
      Assigned(c.(body := Cluster(c.body.ctrls[i := (StrV(item), m.ctrl)])), m.error)
    else if item == "value" then AssignValue(c, v)
    else if item in c.attrs && item in ReadOnlyAttributes then Assigned(c, Some(CannotSet(item)))
    else Assigned(c.(attrs := c.attrs[item := v]), None)
  }

  /** `set_dataflow(direction)`: `DataFlow[direction.upper()]`. */
  function SetDataflow(c: Control, direction: string): (r: Result<Control>)
    ensures r.Ok? <==> DataFlowMember(Upper(direction)).Some?
    ensures r.Ok? ==> r.value == c.(dataflow := DataFlowMember(Upper(direction)).value)
    ensures r.Err? ==> r.error == KeyError(StrV(Upper(direction)))
  {
    var name := Upper(direction);
    match DataFlowMember(name)
    case None => Err(KeyError(StrV(name)))
    case Some(d) => Ok(c.(dataflow := d))
  }

  // ---------------------------------------------------------------------
  // Equality

  /** Whether `v` is a numpy array. */
  predicate IsArray(v: Value) {
    v.NdArrayV? || v.ObjectArrayV?
  }

  /** The elements an elementwise comparison pairs up: those of an array,
      the one object of a 0-d array, and any other value on its own. */
  function ArrayElems(v: Value): (r: seq<Value>)
    ensures !v.NdArrayV? ==> |r| == 1
  {
    match v
    case NdArrayV(xs) => xs
    case ObjectArrayV(o) => [o]
    case _ => [v]
  }

  /** The size of the elementwise result of comparing arrays of sizes `m`
      and `n`: equal sizes, or a size of one broadcast to the other; none
      when the shapes do not broadcast. */
  function BroadcastSize(m: nat, n: nat): (r: Option<nat>)
    ensures r.Some? <==> m == n || m == 1 || n == 1
    ensures r.Some? ==> (r.value == 1 <==> m == 1 && n == 1)
  {
    if m == n then Some(m) else if m == 1 then Some(n) else if n == 1 then Some(m) else None
  }

  /** What `all` makes of one test `x == y`. On values that are not arrays
      that is their `==`. With an array on either side `==` is elementwise,
      and the truth of its result raises ValueError when it holds more than
      one element, is that of its element when it holds one, and is False
      when it holds none or when the shapes did not broadcast. */
  function TestTruth(x: Value, y: Value): (r: Result<bool>)
    ensures !IsArray(x) && !IsArray(y) ==> r == Ok(ValueEq(x, y))
    ensures r.Err? <==> (IsArray(x) || IsArray(y))
                        && var n := BroadcastSize(|ArrayElems(x)|, |ArrayElems(y)|);
                           n.Some? && n.value > 1
    ensures r == Ok(true) && (IsArray(x) || IsArray(y)) ==>
            |ArrayElems(x)| == 1 && |ArrayElems(y)| == 1 && ValueEq(ArrayElems(x)[0], ArrayElems(y)[0])
  {
    if !IsArray(x) && !IsArray(y) then Ok(ValueEq(x, y))
    else
      var xs, ys := ArrayElems(x), ArrayElems(y);
      match BroadcastSize(|xs|, |ys|)
      case None => Ok(false)
      case Some(n) =>
        if n == 0 then Ok(false)
        else if n == 1 then Ok(ValueEq(xs[0], ys[0]))
        else Err(ValueError(if IsArray(x) then x else y))
  }

  /** The stored `value` of a control that is not a Cluster, if it has one. */
  function StoredValue(b: Body): (r: Option<Value>)
    requires !b.Cluster?
  {
    match b
    case NotImplControl(stored) => stored
    case Path(p) => Some(PathV(p))
    case Numeric(v) => Some(v)
    case Boolean(v) => Some(v)
    case Array(v) => Some(v)
    case String(v) => Some(v)
    case TimeStamp(v) => Some(v)
    case Enum(v) => Some(v)
    case IORefNum(_, v) => Some(v)
    case Ring(v) => Some(v)
  }

  /** The attributes in `x` set before `value` (`early`: `name` and the
      read-only attributes, which `__init__` sets first) or after it (the
      others, such as a Ring's `items`) are `==` to those of `y`. */
  predicate AttrsEqual(x: map<string, Value>, y: map<string, Value>, early: bool) {
    forall k :: k in x && (k in ReadOnlyAttributes) == early ==> k in y && ValueEq(x[k], y[k])
  }

  /** `__eq__`. Both sides must be of the same class. A Cluster compares
      the names and members that `zip` pairs up, so only up to the shorter
      of the two; any other control compares its attributes, dataflow and
      stored value under Python's `==`. */
  function Equal(a: Control, b: Control): (r: Result<bool>)
    ensures r != Ok(false) ==> ClassOf(a.body) == ClassOf(b.body)
    ensures r == Ok(true) && !a.body.Cluster? ==>
            && a.dataflow == b.dataflow && a.attrs.Keys == b.attrs.Keys
            && forall k :: k in a.attrs ==> ValueEq(a.attrs[k], b.attrs[k])
    decreases a, 1
  {
    if ClassOf(a.body) != ClassOf(b.body) then Ok(false)
    else if a.body.Cluster? then
      MembersEqual(a, b, if |a.body.ctrls| < |b.body.ctrls| then |a.body.ctrls| else |b.body.ctrls|)
    else FieldsEqual(a, b)
  }

  /** `all(tests)` over the attributes of two controls that are not
      Clusters: the attributes set before `value` and the dataflow first,
      then the stored value, whose test may raise, then the rest. */
  function FieldsEqual(a: Control, b: Control): (r: Result<bool>)
    requires !a.body.Cluster? && !b.body.Cluster?
    ensures r.Err? ==>
            && a.attrs.Keys == b.attrs.Keys && a.dataflow == b.dataflow
            && AttrsEqual(a.attrs, b.attrs, true)
            && StoredValue(a.body).Some? && StoredValue(b.body).Some?
            && TestTruth(StoredValue(a.body).value, StoredValue(b.body).value).Err?
    ensures r == Ok(true) ==>
            && a.dataflow == b.dataflow && a.attrs.Keys == b.attrs.Keys
            && AttrsEqual(a.attrs, b.attrs, true) && AttrsEqual(a.attrs, b.attrs, false)
  {
    if a.attrs.Keys != b.attrs.Keys || a.dataflow != b.dataflow || !AttrsEqual(a.attrs, b.attrs, true)
    then Ok(false)
    else match (StoredValue(a.body), StoredValue(b.body))
      case (Some(x), Some(y)) =>
        var t :- TestTruth(x, y);
        Ok(t && AttrsEqual(a.attrs, b.attrs, false))
      case (None, None) => Ok(AttrsEqual(a.attrs, b.attrs, false))
      case _ => Ok(false)
  }

  /** The tests for the first `n` pairs of names and members. The list is
      built before `all` looks at it, so the first member comparison that
      raises raises out of `__eq__`; otherwise every test must hold. */
  function MembersEqual(a: Control, b: Control, n: nat): (r: Result<bool>)
    requires a.body.Cluster? && b.body.Cluster?
    requires n <= |a.body.ctrls| && n <= |b.body.ctrls|
    ensures r == Ok(true) ==> forall i :: 0 <= i < n ==> ValueEq(a.body.ctrls[i].0, b.body.ctrls[i].0)
    decreases a, 0, n
  {
    if n == 0 then Ok(true)
    else
      var prev :- MembersEqual(a, b, n - 1);
      var same :- Equal(a.body.ctrls[n - 1].1, b.body.ctrls[n - 1].1);
      Ok(prev && ValueEq(a.body.ctrls[n - 1].0, b.body.ctrls[n - 1].0) && same)
  }

  /** Cluster equality that also requires the same number of members. */
  function EqualControls(a: Control, b: Control): (r: Result<bool>)
    ensures r == Ok(true) ==> Equal(a, b) == Ok(true)
    ensures r == Ok(true) && a.body.Cluster? ==> |a.body.ctrls| == |b.body.ctrls|
  {
    var e :- Equal(a, b);
    Ok(e && (a.body.Cluster? ==> |a.body.ctrls| == |b.body.ctrls|))
  }

  // ---------------------------------------------------------------------
  // Construction

  /** The first key of a `**kwargs` mapping that is not a string. */
  function NonStrKey(d: Dict<Value, Value>): (r: Option<Value>)
    ensures r.None? <==> forall i :: 0 <= i < |d| ==> d[i].0.StrV?
    ensures r.Some? ==> !r.value.StrV? && HasKey(d, r.value)
  {
    if d == [] then None
    else if !d[0].0.StrV? then Some(d[0].0)
    else
      NonStrKey(d[1..])
  }

  /** `kwargs.pop(key, default)` */
  function GetOr(d: Dict<Value, Value>, key: string, default: Value): (r: Value)
    ensures HasKey(d, StrV(key)) ==> Get(d, StrV(key)) == Some(r)
    ensures !HasKey(d, StrV(key)) ==> r == default
  {
    match Get(d, StrV(key))
    case None => default
    case Some(v) => v
  }

  /** `LV_Control.__init__`: `name` is required; every other read-only
      attribute present is copied (`type` is absent when the caller
      popped it). */
  function InitAttributes(d: Dict<Value, Value>, omitType: bool): (r: Result<map<string, Value>>)
    ensures r.Ok? <==> HasKey(d, StrV("name"))
    ensures r.Err? ==> r.error == KeyError(StrV("name"))
    ensures r.Ok? ==> "name" in r.value && (omitType ==> "type" !in r.value)
    ensures r.Ok? ==> forall a :: a in r.value <==>
      a in ReadOnlyAttributes && HasKey(d, StrV(a)) && !(omitType && a == "type")
    ensures r.Ok? ==> forall a :: a in r.value ==> Get(d, StrV(a)) == Some(r.value[a])
  {
    match Get(d, StrV("name"))
    case None => Err(KeyError(StrV("name")))
    case Some(n) =>
      var copied := map a | a in ReadOnlyAttributes && a != "name" && HasKey(d, StrV(a))
                               && !(omitType && a == "type") :: Get(d, StrV(a)).value;
      Ok(copied["name" := n])
  }

  /** The class `make_control` picks for a declared type. */
  function ClassFor(t: Value): (r: ControlClass)
    ensures r == NotImplClass <==> !(t.StrV? && LVControlLU(t.s).Some?)
  {
    if t.StrV? && LVControlLU(t.s).Some? then LVControlLU(t.s).value else NotImplClass
  }

  /** The value each constructor uses when `value` is not given. */
  function DefaultValue(cls: ControlClass): (r: Value)
    ensures cls != ClusterClass ==> Convert(cls, map[], r).Ok?
  {
    match cls
    case NumericClass => FloatV(0.0)
    case BooleanClass => BoolV(false)
    case ArrayClass => NdArrayV([])
    case StringClass => StrV("")
    case PathClass => StrV("")
    case TimeStampClass => LV_EPOCH
    case EnumClass => IntV(0)
    case IORefNumClass(_) => TupleV([StrV(""), IntV(0)])
    case RingClass => IntV(0)
    case ClusterClass => NoneV
    case NotImplClass => NoneV
  }

  /** `cls(**kwargs)` for a class of the registry. */
  function Construct(cls: ControlClass, kwargs: Value, omitType: bool): (r: Result<Control>)
    requires kwargs.DictV?
    ensures r.Ok? ==> ClassOf(r.value.body) == cls && r.value.dataflow == UNKNOWN
    ensures r.Ok? ==> "name" in r.value.attrs && (omitType ==> "type" !in r.value.attrs)
    ensures !HasKey(kwargs.entries, StrV("name")) ==> r == Err(KeyError(StrV("name")))
    ensures cls == NotImplClass && HasKey(kwargs.entries, StrV("name")) ==> r.Ok?
    ensures r.Ok? ==> WellTyped(r.value)
    decreases kwargs, 2
  {
    var attrs :- InitAttributes(kwargs.entries, omitType);
    if cls == ClusterClass then ConstructCluster(attrs, kwargs)
    else ConstructValue(cls, attrs, kwargs.entries)
  }

  /** The body of `Cluster.__init__`: the members come from `ctrls.items()`. */
  function ConstructCluster(attrs: map<string, Value>, kwargs: Value): (r: Result<Control>)
    requires kwargs.DictV?
    ensures r.Ok? ==> r.value.attrs == attrs && r.value.dataflow == UNKNOWN && r.value.body.Cluster?
    ensures r.Ok? ==> WellTyped(r.value)
    decreases kwargs, 1
  {
    var d := kwargs.entries;
    match Find(d, StrV("ctrls"))
    case None => Ok(Control(attrs, UNKNOWN, Cluster([])))
    case Some(i) =>
      var ctrls := d[i].1;
      if !ctrls.DictV? then Err(AttributeError("items"))
      else
        var members :- MakeMembers(ctrls, |ctrls.entries|);
        Ok(Control(attrs, UNKNOWN, Cluster(members)))
  }

  /** The bodies of the other constructors: the given `value`, or the
      class's default, passes through the setter; Path first converts it
      with `pathlib.Path`, and Ring stores `items` after its value. */
  function ConstructValue(cls: ControlClass, attrs: map<string, Value>, d: Dict<Value, Value>): (r: Result<Control>)
    requires cls != ClusterClass
    ensures r.Ok? ==> ClassOf(r.value.body) == cls && r.value.dataflow == UNKNOWN
    ensures r.Ok? ==> r.value.attrs == if cls == RingClass then attrs["items" := GetOr(d, "items", NoneV)] else attrs
    ensures cls == NotImplClass ==> r == Ok(Control(attrs, UNKNOWN, NotImplControl(None)))
    ensures r.Ok? ==> WellTyped(r.value)
  {
    var v := GetOr(d, "value", DefaultValue(cls));
    if cls == NotImplClass then Ok(Control(attrs, UNKNOWN, NotImplControl(None)))
    else if cls == PathClass && !(v.StrV? || v.PathV?) then Err(TypeError(v))
    else
      var v' := if cls == PathClass then PathV(if v.StrV? then v.s else v.p) else v;
      var b :- Convert(cls, attrs, v');
      Ok(Control(if cls == RingClass then attrs["items" := GetOr(d, "items", NoneV)] else attrs, UNKNOWN, b))
  }

  /** The loop of `Cluster.__init__` after its first `n` entries: each
      member is built by `make_control` and stored under its name. */
  function MakeMembers(ctrls: Value, n: nat): (r: Result<Dict<Value, Control>>)
    requires ctrls.DictV? && n <= |ctrls.entries|
    ensures r.Ok? ==> MemberNames(r.value) && AllWellTyped(r.value)
    decreases ctrls, 0, n
  {
    if n == 0 then Ok([])
    else
      var prev :- MakeMembers(ctrls, n - 1);
      var m :- MakeControl(ctrls.entries[n - 1].1);
      var name := ctrls.entries[n - 1].0;
      if !Hashable(name) then Err(TypeError(name))
      else
        PutKeepsWellTyped(prev, name, m);
        Ok(Put(prev, name, m))
  }

  /** `make_control(**attrs)`: pops `type`, looks it up in `LVControl_LU`
      and builds that class, or NotImplControl for a type it does not list. */
  function MakeControl(kwargs: Value): (r: Result<Control>)
    ensures r.Ok? ==> r.value.dataflow == UNKNOWN && "type" !in r.value.attrs && "name" in r.value.attrs
    ensures r.Ok? ==> kwargs.DictV? && HasKey(kwargs.entries, StrV("type"))
                      && ClassOf(r.value.body) == ClassFor(Get(kwargs.entries, StrV("type")).value)
    ensures r.Ok? ==> WellTyped(r.value)
    decreases kwargs, 3
  {
    if !kwargs.DictV? then Err(TypeError(kwargs))
    else
      var d := kwargs.entries;
      match NonStrKey(d)
      case Some(k) => Err(TypeError(k))
      case None =>
        match Get(d, StrV("type"))
        case None => Err(KeyError(StrV("type")))
        case Some(t) =>
          if !Hashable(t) then Err(TypeError(t))
          else Construct(ClassFor(t), kwargs, true)
  }

  // ---------------------------------------------------------------------
  // Invariant

  /** The keys of a Python dict: distinct and hashable. */
  predicate MemberNames(d: Dict<Value, Control>) {
    DistinctKeys(d) && forall i :: 0 <= i < |d| ==> Hashable(d[i].0)
  }

  /** Every member of `d` is well-typed. */
  predicate AllWellTyped(d: Dict<Value, Control>) {
    forall i :: 0 <= i < |d| ==> WellTyped(d[i].1)
  }

  /** `d[k] = m` keeps every member well-typed when `m` is. */
  lemma {:induction false} PutKeepsWellTyped(d: Dict<Value, Control>, k: Value, m: Control)
    requires AllWellTyped(d) && WellTyped(m)
    ensures AllWellTyped(Put(d, k, m))
  {
    PutEntries(d, k, m);
  }

  /** What the setters guarantee about the stored value of each class, and
      the distinct member names of a Cluster. */
  predicate WellTyped(c: Control)
    decreases c
  {
    match c.body
    case Numeric(v) => IsNumber(v)
    case Boolean(v) => v.BoolV?
    case Array(v) => IsArray(v)
    case String(v) => v.StrV?
    case Path(_) => true
    case TimeStamp(v) => v.DateTimeV?
    case Enum(v) => IsInt(v)
    case IORefNum(_, v) => v.TupleV?
    case Ring(_) => true
    case NotImplControl(_) => true
    case Cluster(ctrls) =>
      MemberNames(ctrls) && forall i :: 0 <= i < |ctrls| ==> WellTyped(ctrls[i].1)
  }
}
