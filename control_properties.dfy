/** Properties of the control value model: the setters' accept/reject rules
    and round trips, write-once attributes, dataflow, the registry, the
    Cluster's reads and writes, and the invariant every setter keeps. */
module ControlProperties {
  import opened Dicts
  import opened PyValues
  import opened Text
  import opened Datatypes

  // ---------------------------------------------------------------------
  // Setters of the single-valued classes

  /** Each strict setter accepts exactly its type; a rejected value leaves
      the control as it was. */
  lemma StrictSetters(c: Control, v: Value)
    requires !c.body.Cluster?
    ensures var r := AssignValue(c, v);
      (c.body.Numeric? ==> (r.error.None? <==> IsNumber(v)))
      && (c.body.Boolean? ==> (r.error.None? <==> v.BoolV?))
      && (c.body.String? ==> (r.error.None? <==> v.StrV?))
      && (c.body.Enum? ==> (r.error.None? <==> IsInt(v)))
      && (c.body.TimeStamp? ==> (r.error.None? <==> v.DateTimeV?))
      && (c.body.Array? ==> (r.error.None? <==> !v.StrV? && HasIter(v)))
      && (c.body.Path? ==> (r.error.None? <==> v.StrV? || v.PathV?))
      && (c.body.IORefNum? ==> (r.error.None? <==> v.StrV? || v.TupleV?))
      && (r.error.Some? ==> r.ctrl == c && (c.body.Ring? || r.error == Some(TypeError(v))))
  {
  }

  /** `bool` passes the Numeric and Enum checks, as a subclass of `int`. */
  lemma BoolIsNumberAndInt(c: Control, b: bool)
    requires c.body.Numeric? || c.body.Enum?
    ensures AssignValue(c, BoolV(b)) == Assigned(c.(body := c.body.(value := BoolV(b))), None)
  {
  }

  /** An accepted value reads back as it was given. */
  lemma SetThenRead(c: Control, v: Value)
    requires c.body.Numeric? || c.body.Boolean? || c.body.String? || c.body.Enum?
             || c.body.TimeStamp? || c.body.NotImplControl?
    requires AssignValue(c, v).error.None?
    ensures ReadValue(AssignValue(c, v).ctrl) == Ok(v)
  {
  }

  /** Array stores what `np.array` makes of any non-string value with an
      `__iter__`: the elements of a tuple, list or array, and a dict as the
      one object of a 0-d array. */
  lemma ArraySetThenRead(c: Control, v: Value)
    requires c.body.Array? && !v.StrV? && HasIter(v)
    ensures v.TupleV? || v.ListV? || v.NdArrayV? ==> ReadValue(AssignValue(c, v).ctrl) == Ok(NdArrayV(v.elems))
    ensures v.DictV? ==> ReadValue(AssignValue(c, v).ctrl) == Ok(ObjectArrayV(v))
    ensures v.ObjectArrayV? ==> ReadValue(AssignValue(c, v).ctrl) == Ok(v)
  {
  }

  /** A Path reads back as the text of the string or path it was given. */
  lemma PathSetThenRead(c: Control, v: Value)
    requires c.body.Path? && (v.StrV? || v.PathV?)
    ensures ReadValue(AssignValue(c, v).ctrl) == Ok(StrV(if v.StrV? then v.s else v.p))
  {
  }

  /** IORefNum stores a bare string `s` as `(s, 0)` and shows `s`; a tuple
      is stored as it is and shows its first component. */
  lemma IORefNumSetThenDisplay(c: Control, v: Value)
    requires c.body.IORefNum? && (v.StrV? || v.TupleV?)
    ensures var r := AssignValue(c, v);
      r.error.None? && r.ctrl.body.value.TupleV?
      && (v.StrV? ==> r.ctrl.body.value == TupleV([v, IntV(0)]) && IORefNumDisplay(r.ctrl) == Ok(v))
      && (v.TupleV? ==> r.ctrl.body.value == v
                        && (|v.elems| > 0 ==> IORefNumDisplay(r.ctrl) == Ok(v.elems[0])))
  {
  }

  /** Ring replaces a string by its first position in a list or tuple of
      `items` and then shows that string again; a string not among the
      items raises ValueError and changes nothing; any other value is
      stored as given; a string assigned before `items` raises
      AttributeError. */
  lemma {:induction false} RingSetters(c: Control, v: Value)
    requires c.body.Ring?
    ensures "items" !in c.attrs && v.StrV? ==> AssignValue(c, v) == Assigned(c, Some(AttributeError("items")))
    ensures !v.StrV? ==> AssignValue(c, v) == Assigned(c.(body := Ring(v)), None)
    ensures "items" in c.attrs && (c.attrs["items"].ListV? || c.attrs["items"].TupleV?) ==>
      var r := AssignValue(c, v); var items := c.attrs["items"].elems;
      (v.StrV? && v in items ==>
         r.error.None? && r.ctrl.body.value.IntV?
         && 0 <= r.ctrl.body.value.i < |items| && items[r.ctrl.body.value.i] == v
         && RingDisplay(r.ctrl) == Ok(v))
      && (v.StrV? && v !in items ==> r == Assigned(c, Some(ValueError(v))))
  {
    if "items" in c.attrs && (c.attrs["items"].ListV? || c.attrs["items"].TupleV?) {
      var items := c.attrs["items"].elems;
      if v.StrV? && v in items {
        var r := AssignValue(c, v);
        var i := r.ctrl.body.value.i;
        assert PyIndex(|items|, i) == Some(i);
      }
    }
  }

  /** With a string as `items`, a string value is replaced by the position
      of its first occurrence as a substring, and the ring then shows the
      single character there; a string that does not occur raises
      ValueError and changes nothing. */
  lemma {:induction false} RingStringItems(c: Control, v: string)
    requires c.body.Ring? && "items" in c.attrs && c.attrs["items"].StrV?
    ensures var r := AssignValue(c, StrV(v)); var text := c.attrs["items"].s;
      ((exists j: nat :: At(text, j, v)) ==>
         r.error.None? && r.ctrl.body.value.IntV?
         && At(text, r.ctrl.body.value.i, v)
         && (forall j :: 0 <= j < r.ctrl.body.value.i ==> !At(text, j, v))
         && (v != [] ==> RingDisplay(r.ctrl) == Ok(StrV([v[0]]))))
      && ((forall j: nat :: !At(text, j, v)) ==> r == Assigned(c, Some(ValueError(StrV(v)))))
  {
    var text := c.attrs["items"].s;
    var r := AssignValue(c, StrV(v));
    if r.error.None? && v != [] {
      var i := r.ctrl.body.value.i;
      assert text[i..i + |v|][0] == text[i];
      assert PyIndex(|text|, i) == Some(i);
    }
  }

  /** A stored position shows the item there, counting from the end when
      it is negative. */
  lemma RingShowsPosition(c: Control, i: int)
    requires c.body.Ring? && "items" in c.attrs && (c.attrs["items"].ListV? || c.attrs["items"].TupleV?)
    ensures var items := c.attrs["items"].elems; var r := AssignValue(c, IntV(i));
      r.error.None?
      && (0 <= i < |items| ==> RingDisplay(r.ctrl) == Ok(items[i]))
      && (-|items| <= i < 0 ==> RingDisplay(r.ctrl) == Ok(items[|items| + i]))
      && (!(-|items| <= i < |items|) ==> RingDisplay(r.ctrl) == Err(IndexError(i)))
  {
  }

  // ---------------------------------------------------------------------
  // Attributes and dataflow

  /** A read-only attribute not yet present can be assigned once; the next
      assignment raises and the first value stays. */
  lemma WriteOnce(c: Control, a: string, v1: Value, v2: Value)
    requires a in ReadOnlyAttributes && a !in c.attrs
    requires !(c.body.Cluster? && HasKey(c.body.ctrls, StrV(a)))
    ensures var first := SetAttribute(c, a, v1);
      first == Assigned(c.(attrs := c.attrs[a := v1]), None)
      && SetAttribute(first.ctrl, a, v2) == Assigned(first.ctrl, Some(CannotSet(a)))
  {
  }

  /** Attributes outside READONLY_ATTRIBUTES may be reassigned freely. */
  lemma OtherAttributesRewritable(c: Control, a: string, v: Value)
    requires a !in ReadOnlyAttributes && a != "value"
    requires !(c.body.Cluster? && HasKey(c.body.ctrls, StrV(a)))
    ensures SetAttribute(c, a, v) == Assigned(c.(attrs := c.attrs[a := v]), None)
  {
  }

  /** Every control `make_control` builds has dataflow UNKNOWN and its
      `name` is already write-protected. */
  lemma FreshControl(kwargs: Value, v: Value)
    requires MakeControl(kwargs).Ok?
    ensures var c := MakeControl(kwargs).value;
      c.dataflow == UNKNOWN && c.dataflow.Number() == 3
      && (!(c.body.Cluster? && HasKey(c.body.ctrls, StrV("name")))
          ==> SetAttribute(c, "name", v) == Assigned(c, Some(CannotSet("name"))))
  {
  }

  lemma {:induction false} UpperIdempotent(s: string)
    ensures Upper(Upper(s)) == Upper(s)
  {
    assert forall i :: 0 <= i < |s| ==> Upper(Upper(s))[i] == Upper(s)[i];
  }

  /** `set_dataflow` ignores the case of its argument. */
  lemma {:induction false} SetDataflowIgnoresCase(c: Control, d: string)
    ensures SetDataflow(c, Lower(d)) == SetDataflow(c, d)
    ensures SetDataflow(c, Upper(d)) == SetDataflow(c, d)
  {
    assert Upper(Lower(d)) == Upper(d) by {
      assert forall i :: 0 <= i < |d| ==> Upper(Lower(d))[i] == Upper(d)[i];
    }
    UpperIdempotent(d);
  }

  /** CONTROL and IN select 1, INDICATOR and OUT select 2, UNKNOWN selects
      3, in any case; any other name raises KeyError and keeps the control. */
  lemma SetDataflowNames(c: Control, d: string)
    ensures Upper(d) == "CONTROL" || Upper(d) == "IN" ==>
              SetDataflow(c, d) == Ok(c.(dataflow := CONTROL)) && CONTROL.Number() == 1
    ensures Upper(d) == "INDICATOR" || Upper(d) == "OUT" ==>
              SetDataflow(c, d) == Ok(c.(dataflow := INDICATOR)) && INDICATOR.Number() == 2
    ensures Upper(d) == "UNKNOWN" ==> SetDataflow(c, d) == Ok(c.(dataflow := UNKNOWN))
    ensures Upper(d) !in ["CONTROL", "IN", "INDICATOR", "OUT", "UNKNOWN"] ==>
              SetDataflow(c, d) == Err(KeyError(StrV(Upper(d))))
  {
  }

  /** The lower-case spellings the docstring lists select 1 and 2. */
  lemma {:induction false} DataflowControl(c: Control)
    ensures SetDataflow(c, "control") == Ok(c.(dataflow := CONTROL))
  {
    assert Upper("control") == "CONTROL";
  }

  lemma {:induction false} DataflowIn(c: Control)
    ensures SetDataflow(c, "in") == Ok(c.(dataflow := CONTROL))
  {
    assert Upper("in") == "IN";
  }

  lemma {:induction false} DataflowIndicator(c: Control)
    ensures SetDataflow(c, "indicator") == Ok(c.(dataflow := INDICATOR))
  {
    assert Upper("indicator") == "INDICATOR";
  }

  lemma {:induction false} DataflowOut(c: Control)
    ensures SetDataflow(c, "out") == Ok(c.(dataflow := INDICATOR))
  {
    assert Upper("out") == "OUT";
  }

  // ---------------------------------------------------------------------
  // The registry

  /** A type `LVControl_LU` does not list still builds a control: a
      NotImplControl with no value, given a `name`. */
  lemma {:induction false} UnknownTypeBuildsNotImpl(kwargs: Value)
    requires kwargs.DictV? && NonStrKey(kwargs.entries).None?
    requires HasKey(kwargs.entries, StrV("name"))
    requires Get(kwargs.entries, StrV("type")).Some?
    requires var t := Get(kwargs.entries, StrV("type")).value;
             Hashable(t) && !(t.StrV? && LVControlLU(t.s).Some?)
    ensures MakeControl(kwargs).Ok?
    ensures MakeControl(kwargs).value.body == NotImplControl(None)
    ensures ReadValue(MakeControl(kwargs).value) == Err(AttributeError("value"))
  {
    var d := kwargs.entries;
    assert ClassFor(Get(d, StrV("type")).value) == NotImplClass;
    assert MakeControl(kwargs) == Construct(NotImplClass, kwargs, true);
    var attrs := InitAttributes(d, true).value;
    assert Construct(NotImplClass, kwargs, true) == ConstructValue(NotImplClass, attrs, d);
  }

  /** Without a `value`, every constructor but Cluster's and
      NotImplControl's succeeds and reads back its class's default: 0.0,
      False, "", 0, the 1904 epoch, an empty array, `("", 0)`, the empty
      path and item 0. */
  lemma Defaults(cls: ControlClass, attrs: map<string, Value>, d: Dict<Value, Value>)
    requires cls != ClusterClass && cls != NotImplClass && !HasKey(d, StrV("value"))
    ensures ConstructValue(cls, attrs, d).Ok?
    ensures ReadValue(ConstructValue(cls, attrs, d).value) == Ok(DefaultValue(cls))
  {
  }

  /** A Ring built with a string `value` fails: its setter looks the string
      up in `items`, which `__init__` assigns only afterwards. */
  lemma RingStringInitialValueFails(kwargs: Value)
    requires kwargs.DictV?
    requires var u := Get(kwargs.entries, StrV("value")); u.Some? && u.value.StrV?
    ensures ConstructValue(RingClass, map["name" := StrV("r")], kwargs.entries) == Err(AttributeError("items"))
  {
  }

  // ---------------------------------------------------------------------
  // The setter invariant

  /** In a dict with distinct keys every entry is the one its key finds. */
  lemma FindFirstOfDistinct<V>(d: Dict<Value, V>, i: nat)
    requires DistinctKeys(d) && i < |d|
    ensures Find(d, d[i].0) == Some(i)
    ensures Get(d, d[i].0) == Some(d[i].1)
  {
    FindFirst(d, d[i].0, i);
  }

  // ---------------------------------------------------------------------
  // Cluster reads

  /** A cluster's value lists its members' values in member order. */
  lemma {:induction false} ClusterValueInOrder(c: Control)
    requires c.body.Cluster?
    ensures ReadValue(c).Ok? <==> forall i :: 0 <= i < |c.body.ctrls| ==> ReadValue(c.body.ctrls[i].1).Ok?
    ensures ReadValue(c).Ok? ==> forall i :: 0 <= i < |c.body.ctrls| ==>
      ReadValue(c.body.ctrls[i].1) == Ok(ReadValue(c).value.elems[i])
  {
    ReadMembersFacts(c, |c.body.ctrls|);
  }

  /** `c[i]` is the i-th member, counting from the end for negative `i`,
      and positions outside the cluster raise IndexError. */
  lemma {:induction false} GetItemByPosition(c: Control, i: int)
    requires c.body.Cluster? && WellTyped(c)
    ensures var n := |c.body.ctrls|;
      (0 <= i < n ==> GetItem(c, IntV(i)) == Ok(c.body.ctrls[i].1))
      && (-n <= i < 0 ==> GetItem(c, IntV(i)) == Ok(c.body.ctrls[n + i].1))
      && (!(-n <= i < n) ==> GetItem(c, IntV(i)) == Err(IndexError(i)))
  {
    var n := |c.body.ctrls|;
    if 0 <= i < n {
      FindFirstOfDistinct(c.body.ctrls, i);
    } else if -n <= i < 0 {
      FindFirstOfDistinct(c.body.ctrls, n + i);
    }
  }

  /** `c[name]` is the member of that name; an unknown name raises KeyError. */
  lemma {:induction false} GetItemByName(c: Control, key: Value, i: nat)
    requires c.body.Cluster? && WellTyped(c) && !IsInt(key)
    requires i < |c.body.ctrls| && c.body.ctrls[i].0 == key
    ensures GetItem(c, key) == Ok(c.body.ctrls[i].1)
  {
    FindFirstOfDistinct(c.body.ctrls, i);
  }

  /** `c[c.index(name)]` is `c[name]`. */
  lemma {:induction false} IndexThenGetItem(c: Control, key: Value)
    requires c.body.Cluster? && WellTyped(c) && !IsInt(key)
    requires IndexOfMember(c, key).Ok?
    ensures GetItem(c, IntV(IndexOfMember(c, key).value)) == GetItem(c, key)
  {
    var i := IndexOfMember(c, key).value;
    GetItemByPosition(c, i);
    GetItemByName(c, key, i);
  }

  /** `name in c` exactly when `c.index(name)` succeeds. */
  lemma ContainsIffIndex(c: Control, key: Value)
    requires c.body.Cluster? && Hashable(key)
    ensures ContainsMember(c, key) == Ok(IndexOfMember(c, key).Ok?)
  {
  }

  /** `bool(c)` exactly when `c[0]` exists, and then the value is a
      non-empty list when it can be read. */
  lemma {:induction false} TruthIffFirstMember(c: Control)
    requires c.body.Cluster? && WellTyped(c)
    ensures Truth(c) <==> GetItem(c, IntV(0)).Ok?
    ensures ReadValue(c).Ok? ==> (Truth(c) <==> ReadValue(c).value.elems != [])
  {
    GetItemByPosition(c, 0);
  }

  // ---------------------------------------------------------------------
  // Cluster writes

  /** `update(d)` after `n` entries leaves every member whose name is not
      among those entries as it was, even when the update raised. */
  lemma {:induction false} UpdateLeavesOthers(c: Control, entries: Dict<Value, Value>, n: nat, i: nat)
    requires c.body.Cluster? && n <= |entries| && i < |c.body.ctrls|
    requires forall j :: 0 <= j < n ==> entries[j].0 != c.body.ctrls[i].0
    ensures UpdateMembers(c, entries, n).ctrl.body.ctrls[i] == c.body.ctrls[i]
    decreases n
  {
    if n > 0 {
      UpdateLeavesOthers(c, entries, n - 1, i);
    }
  }

  /** When `update(d)` did not raise, each named member holds the result of
      assigning it the value given for its name. */
  lemma {:induction false} UpdateSetsNamed(c: Control, entries: Dict<Value, Value>, n: nat, i: nat, j: nat)
    requires c.body.Cluster? && n <= |entries| && MemberNames(c.body.ctrls) && DistinctKeys(entries)
    requires i < |c.body.ctrls| && j < n && entries[j].0 == c.body.ctrls[i].0
    requires UpdateMembers(c, entries, n).error.None?
    ensures UpdateMembers(c, entries, n).ctrl.body.ctrls[i]
            == (c.body.ctrls[i].0, AssignValue(c.body.ctrls[i].1, entries[j].1).ctrl)
    decreases n
  {
    var ms := c.body.ctrls;
    var name := entries[n - 1].0;
    UpdateNamedStep(c, entries, n);
    var k := Find(ms, name).value;
    var want := (ms[i].0, AssignValue(ms[i].1, entries[j].1).ctrl);
    if j == n - 1 {
      FindFirstOfDistinct(ms, i);
    } else {
      assert entries[j].0 != entries[n - 1].0;
      UpdateSetsNamed(c, entries, n - 1, i, j);
    }
    AssignMemberAt(c, UpdateMembers(c, entries, n - 1).ctrl, k, AssignValue(ms[k].1, entries[n - 1].1), i, want);
  }

  /** Member `i` after `AssignMember` at `k`: the new member when `k == i`,
      the old one otherwise. */
  lemma {:induction false} AssignMemberAt(c: Control, d: Control, k: nat, m: Assigned, i: nat, want: (Value, Control))
    requires c.body.Cluster? && SameShape(c, d) && k < |c.body.ctrls| && i < |c.body.ctrls|
    requires k == i ==> want == (c.body.ctrls[i].0, m.ctrl)
    requires k != i ==> d.body.ctrls[i] == want
    ensures AssignMember(c, d, k, m).ctrl.body.ctrls[i] == want
  {
  }

  /** An `update` pass that did not raise: the entry named a member,
      which received its setter's result. */
  lemma {:induction false} UpdateNamedStep(c: Control, entries: Dict<Value, Value>, n: nat)
    requires c.body.Cluster? && 0 < n <= |entries|
    requires UpdateMembers(c, entries, n).error.None?
    ensures var ms, name := c.body.ctrls, entries[n - 1].0;
      && UpdateMembers(c, entries, n - 1).error.None? && Hashable(name) && Find(ms, name).Some?
      && UpdateMembers(c, entries, n)
         == AssignMember(c, UpdateMembers(c, entries, n - 1).ctrl, Find(ms, name).value,
                         AssignValue(ms[Find(ms, name).value].1, entries[n - 1].1))
  {
  }

  /** `update(d)` raises exactly when some name is not hashable or not a
      member, or some member's setter rejects the value given for it. */
  lemma {:induction false} UpdateRaisesIff(c: Control, entries: Dict<Value, Value>, n: nat)
    requires c.body.Cluster? && n <= |entries|
    ensures UpdateMembers(c, entries, n).error.None? <==>
            forall j :: 0 <= j < n ==> EntryAccepted(c.body.ctrls, entries[j])
  {
    if UpdateMembers(c, entries, n).error.None? {
      UpdateAccepted(c, entries, n);
    }
    if forall j :: 0 <= j < n ==> EntryAccepted(c.body.ctrls, entries[j]) {
      UpdateAllAccepted(c, entries, n);
    }
  }

  /** An `update` that did not raise had every entry accepted. */
  lemma {:induction false} UpdateAccepted(c: Control, entries: Dict<Value, Value>, n: nat)
    requires c.body.Cluster? && n <= |entries|
    requires UpdateMembers(c, entries, n).error.None?
    ensures forall j :: 0 <= j < n ==> EntryAccepted(c.body.ctrls, entries[j])
  {
    if n > 0 {
      UpdateStepRaises(c, entries, n);
      UpdateAccepted(c, entries, n - 1);
      AcceptedUpTo(c.body.ctrls, entries, n);
    }
  }

  /** An `update` whose every entry is accepted does not raise. */
  lemma {:induction false} UpdateAllAccepted(c: Control, entries: Dict<Value, Value>, n: nat)
    requires c.body.Cluster? && n <= |entries|
    requires forall j :: 0 <= j < n ==> EntryAccepted(c.body.ctrls, entries[j])
    ensures UpdateMembers(c, entries, n).error.None?
  {
    if n > 0 {
      AcceptedUpTo(c.body.ctrls, entries, n);
      UpdateAllAccepted(c, entries, n - 1);
      UpdateStepRaises(c, entries, n);
    }
  }

  /** Every one of the first `n` entries is accepted exactly when the first
      `n - 1` are and entry `n - 1` is. */
  lemma AcceptedUpTo(ms: Dict<Value, Control>, entries: Dict<Value, Value>, n: nat)
    requires 0 < n <= |entries|
    ensures (forall j :: 0 <= j < n ==> EntryAccepted(ms, entries[j])) <==>
            (forall j :: 0 <= j < n - 1 ==> EntryAccepted(ms, entries[j])) && EntryAccepted(ms, entries[n - 1])
  {
  }

  /** One step of `update`: it completes without raising exactly when the
      earlier steps did and the entry is accepted. */
  lemma {:induction false} UpdateStepRaises(c: Control, entries: Dict<Value, Value>, n: nat)
    requires c.body.Cluster? && 0 < n <= |entries|
    ensures UpdateMembers(c, entries, n).error.None? <==>
            UpdateMembers(c, entries, n - 1).error.None? && EntryAccepted(c.body.ctrls, entries[n - 1])
  {
    var ms := c.body.ctrls;
    var prev := UpdateMembers(c, entries, n - 1);
    var name := entries[n - 1].0;
    if prev.error.None? && Hashable(name) && Find(ms, name).Some? {
      assert UpdateMembers(c, entries, n) == AssignMember(c, prev.ctrl, Find(ms, name).value, AssignValue(ms[Find(ms, name).value].1, entries[n - 1].1));
    }
  }

  /** The entry `(name, x)` names a member whose setter accepts `x`. */
  predicate EntryAccepted(ms: Dict<Value, Control>, entry: (Value, Value)) {
    Hashable(entry.0) && HasKey(ms, entry.0)
    && AssignValue(ms[Find(ms, entry.0).value].1, entry.1).error.None?
  }

  /** A sequence assignment after `n` positions leaves the later members
      untouched, even when it raised. */
  lemma {:induction false} PositionalLeavesRest(c: Control, xs: seq<Value>, n: nat, i: nat)
    requires c.body.Cluster? && n <= |c.body.ctrls| && n <= |xs| && n <= i < |c.body.ctrls|
    ensures AssignPositional(c, xs, n).ctrl.body.ctrls[i] == c.body.ctrls[i]
  {
    if n == 0 {
      assert AssignPositional(c, xs, 0) == Assigned(c, None);
    } else {
      PositionalLeavesRest(c, xs, n - 1, i);
      PositionalStepError(c, xs, n);
      var prev := AssignPositional(c, xs, n - 1);
      if prev.error.None? {
        assert SameNames(c.body.ctrls, prev.ctrl.body.ctrls);
        var cur := AssignMember(c, prev.ctrl, n - 1, AssignValue(c.body.ctrls[n - 1].1, xs[n - 1]));
        assert cur.ctrl.body.ctrls[i] == prev.ctrl.body.ctrls[i];
      }
    }
  }

  /** When a sequence assignment did not raise, member `i` holds the result
      of assigning `xs[i]`. */
  lemma {:induction false} PositionalSets(c: Control, xs: seq<Value>, n: nat, i: nat)
    requires c.body.Cluster? && n <= |c.body.ctrls| && n <= |xs| && i < n
    requires AssignPositional(c, xs, n).error.None?
    ensures AssignPositional(c, xs, n).ctrl.body.ctrls[i]
            == (c.body.ctrls[i].0, AssignValue(c.body.ctrls[i].1, xs[i]).ctrl)
  {
    PositionalStepError(c, xs, n);
    var prev := AssignPositional(c, xs, n - 1);
    assert prev.error.None?;
    var cur := AssignMember(c, prev.ctrl, n - 1, AssignValue(c.body.ctrls[n - 1].1, xs[n - 1]));
    if i < n - 1 {
      PositionalSets(c, xs, n - 1, i);
      assert cur.ctrl.body.ctrls[i] == prev.ctrl.body.ctrls[i];
    } else {
      assert cur.ctrl.body.ctrls[i] == (c.body.ctrls[i].0, AssignValue(c.body.ctrls[i].1, xs[i]).ctrl);
    }
  }

  /** A sequence assignment raises exactly when some member's setter
      rejects the element paired with it. */
  lemma {:induction false} PositionalRaisesIff(c: Control, xs: seq<Value>, n: nat)
    requires c.body.Cluster? && n <= |c.body.ctrls| && n <= |xs|
    ensures AssignPositional(c, xs, n).error.None? <==>
            forall i :: 0 <= i < n ==> AssignValue(c.body.ctrls[i].1, xs[i]).error.None?
  {
    if AssignPositional(c, xs, n).error.None? {
      PositionalAccepted(c, xs, n);
    }
    if forall i :: 0 <= i < n ==> AssignValue(c.body.ctrls[i].1, xs[i]).error.None? {
      PositionalAllAccept(c, xs, n);
    }
  }

  /** A sequence assignment that did not raise had every paired element
      accepted. */
  lemma {:induction false} PositionalAccepted(c: Control, xs: seq<Value>, n: nat)
    requires c.body.Cluster? && n <= |c.body.ctrls| && n <= |xs|
    requires AssignPositional(c, xs, n).error.None?
    ensures forall i :: 0 <= i < n ==> AssignValue(c.body.ctrls[i].1, xs[i]).error.None?
  {
    if n > 0 {
      PositionalStepError(c, xs, n);
      PositionalAccepted(c, xs, n - 1);
      SetterAcceptsUpTo(c.body.ctrls, xs, n);
    }
  }

  /** A sequence assignment whose every paired element is accepted does
      not raise. */
  lemma {:induction false} PositionalAllAccept(c: Control, xs: seq<Value>, n: nat)
    requires c.body.Cluster? && n <= |c.body.ctrls| && n <= |xs|
    requires forall i :: 0 <= i < n ==> AssignValue(c.body.ctrls[i].1, xs[i]).error.None?
    ensures AssignPositional(c, xs, n).error.None?
  {
    if n > 0 {
      SetterAcceptsUpTo(c.body.ctrls, xs, n);
      PositionalAllAccept(c, xs, n - 1);
      PositionalStepError(c, xs, n);
    }
  }

  /** Every one of the first `n` members accepts its element exactly when
      the first `n - 1` do and member `n - 1` does. */
  lemma SetterAcceptsUpTo(ms: Dict<Value, Control>, xs: seq<Value>, n: nat)
    requires 0 < n <= |ms| && n <= |xs|
    ensures (forall i :: 0 <= i < n ==> AssignValue(ms[i].1, xs[i]).error.None?) <==>
            (forall i :: 0 <= i < n - 1 ==> AssignValue(ms[i].1, xs[i]).error.None?)
            && AssignValue(ms[n - 1].1, xs[n - 1]).error.None?
  {
  }

  /** The `n`-th pass of the `zip` loop: it assigns member `n - 1` when the
      earlier passes raised nothing, and is not reached otherwise. */
  lemma PositionalStepError(c: Control, xs: seq<Value>, n: nat)
    requires c.body.Cluster? && 0 < n <= |c.body.ctrls| && n <= |xs|
    ensures AssignPositional(c, xs, n - 1).error.None? ==>
            AssignPositional(c, xs, n) ==
              AssignMember(c, AssignPositional(c, xs, n - 1).ctrl, n - 1, AssignValue(c.body.ctrls[n - 1].1, xs[n - 1]))
    ensures AssignPositional(c, xs, n - 1).error.Some? ==>
            AssignPositional(c, xs, n) == AssignPositional(c, xs, n - 1)
  {
  }

  /** Assigning a dict to a cluster is `update`; assigning any other
      iterable pairs members and elements up to the shorter of the two; a
      non-iterable raises TypeError and changes nothing. */
  lemma ClusterAssignment(c: Control, v: Value)
    requires c.body.Cluster?
    ensures var n := |c.body.ctrls|;
      (HasKey(c.body.ctrls, StrV("value")) ==>
         var i := Find(c.body.ctrls, StrV("value")).value;
         AssignValue(c, v) == AssignMember(c, c, i, AssignValue(c.body.ctrls[i].1, v)))
      && (!HasKey(c.body.ctrls, StrV("value")) ==>
        (v.DictV? ==> AssignValue(c, v) == UpdateMembers(c, v.entries, |v.entries|))
        && (!v.DictV? && IsIterable(v) ==>
              AssignValue(c, v) == AssignPositional(c, Iterate(v).value,
                if n < |Iterate(v).value| then n else |Iterate(v).value|))
        && (!IsIterable(v) ==> AssignValue(c, v) == Assigned(c, Some(TypeError(v)))))
  {
  }

  /** A member named "value" takes the whole-cluster write: it receives `v`
      and every other member stays as it was. */
  lemma {:induction false} ValueMemberAssigned(c: Control, v: Value, i: nat)
    requires c.body.Cluster? && i < |c.body.ctrls| && c.body.ctrls[i].0 == StrV("value")
    requires DistinctKeys(c.body.ctrls)
    ensures var r := AssignValue(c, v);
      r.ctrl.body.ctrls[i] == (StrV("value"), AssignValue(c.body.ctrls[i].1, v).ctrl)
      && r.error == AssignValue(c.body.ctrls[i].1, v).error
      && forall j :: 0 <= j < |c.body.ctrls| && j != i ==> r.ctrl.body.ctrls[j] == c.body.ctrls[j]
  {
    FindFirstOfDistinct(c.body.ctrls, i);
  }

  /** A control of the registry, a Numeric `x` and a Boolean `y` inside a
      Cluster, written by name: each member takes the value given for it. */
  lemma {:induction false} ClusterWriteByName(c: Control, x: Value, y: Value)
    requires c.body.Cluster? && WellTyped(c) && |c.body.ctrls| == 2
    requires c.body.ctrls[0].0 == StrV("x") && c.body.ctrls[0].1.body.Numeric?
    requires c.body.ctrls[1].0 == StrV("y") && c.body.ctrls[1].1.body.Boolean?
    requires IsNumber(x) && y.BoolV?
    ensures var r := AssignValue(c, DictV([(StrV("x"), x), (StrV("y"), y)]));
      r.error.None? && ReadValue(r.ctrl) == Ok(ListV([x, y]))
  {
    var ms := c.body.ctrls;
    PairUpdated(c, x, y);
    var r := UpdateMembers(c, [(StrV("x"), x), (StrV("y"), y)], 2);
    SetThenRead(ms[0].1, x);
    SetThenRead(ms[1].1, y);
    ReadPair(r.ctrl, x, y);
  }

  /** The `update` of that pair of members writes each through its setter. */
  lemma {:induction false} PairUpdated(c: Control, x: Value, y: Value)
    requires c.body.Cluster? && WellTyped(c) && |c.body.ctrls| == 2
    requires c.body.ctrls[0].0 == StrV("x") && c.body.ctrls[0].1.body.Numeric?
    requires c.body.ctrls[1].0 == StrV("y") && c.body.ctrls[1].1.body.Boolean?
    requires IsNumber(x) && y.BoolV?
    ensures var entries := [(StrV("x"), x), (StrV("y"), y)];
      var r := UpdateMembers(c, entries, 2);
      && AssignValue(c, DictV(entries)) == r
      && r.error.None? && r.ctrl.body.Cluster? && |r.ctrl.body.ctrls| == 2
      && r.ctrl.body.ctrls[0].1 == AssignValue(c.body.ctrls[0].1, x).ctrl
      && r.ctrl.body.ctrls[1].1 == AssignValue(c.body.ctrls[1].1, y).ctrl
      && AssignValue(c.body.ctrls[0].1, x).error.None?
      && AssignValue(c.body.ctrls[1].1, y).error.None?
  {
    var entries := [(StrV("x"), x), (StrV("y"), y)];
    var ms := c.body.ctrls;
    FindFirstOfDistinct(ms, 0);
    FindFirstOfDistinct(ms, 1);
    StrictSetters(ms[0].1, x);
    StrictSetters(ms[1].1, y);
    var first := AssignMember(c, c, 0, AssignValue(ms[0].1, x));
    assert UpdateMembers(c, entries, 1) == first;
    var r := AssignMember(c, first.ctrl, 1, AssignValue(ms[1].1, y));
    assert UpdateMembers(c, entries, 2) == r;
  }

  /** A two-member cluster reads as the list of its two members' values. */
  lemma {:induction false} ReadPair(c: Control, x: Value, y: Value)
    requires c.body.Cluster? && |c.body.ctrls| == 2
    requires ReadValue(c.body.ctrls[0].1) == Ok(x) && ReadValue(c.body.ctrls[1].1) == Ok(y)
    ensures ReadValue(c) == Ok(ListV([x, y]))
  {
    ReadMembersStep(c, 0, [], x);
    assert [] + [x] == [x];
    ReadMembersStep(c, 1, [x], y);
    assert [x] + [y] == [x, y];
  }

  // ---------------------------------------------------------------------
  // Equality

  /** A control whose every compared `value` (its own, or its members')
      is no array or an array of one element. */
  predicate SelfComparable(c: Control)
    decreases c
  {
    match c.body
    case Cluster(ms) => forall i :: 0 <= i < |ms| ==> SelfComparable(ms[i].1)
    case _ =>
      var v := StoredValue(c.body);
      v.None? || !IsArray(v.value) || |ArrayElems(v.value)| == 1
  }

  /** A control equals itself unless it compares an array of other than
      one element, see ArrayComparedWithItself. */
  lemma {:induction false} EqualReflexive(c: Control)
    requires SelfComparable(c)
    ensures Equal(c, c) == Ok(true)
    decreases c, 1
  {
    if c.body.Cluster? {
      MembersEqualReflexive(c, |c.body.ctrls|);
    } else {
      AttrsReflexive(c.attrs);
      var v := StoredValue(c.body);
      if v.Some? {
        if IsArray(v.value) {
          ValueEqReflexive(ArrayElems(v.value)[0]);
        } else {
          ValueEqReflexive(v.value);
        }
      }
    }
  }

  lemma {:induction false} MembersEqualReflexive(c: Control, n: nat)
    requires c.body.Cluster? && n <= |c.body.ctrls| && SelfComparable(c)
    ensures MembersEqual(c, c, n) == Ok(true)
    decreases c, 0, n
  {
    if n > 0 {
      MembersEqualReflexive(c, n - 1);
      EqualReflexive(c.body.ctrls[n - 1].1);
      ValueEqReflexive(c.body.ctrls[n - 1].0);
    }
  }

  /** Every attribute is `==` to itself. */
  lemma AttrsReflexive(attrs: map<string, Value>)
    ensures AttrsEqual(attrs, attrs, true) && AttrsEqual(attrs, attrs, false)
  {
    forall k | k in attrs ensures ValueEq(attrs[k], attrs[k]) {
      ValueEqReflexive(attrs[k]);
    }
  }

  /** `a == a` on an Array: the elementwise result of two or more elements
      has no truth value and raises ValueError, an empty one is False, and
      a single element is compared with itself. */
  lemma ArrayComparedWithItself(c: Control)
    requires c.body.Array? && c.body.value.NdArrayV?
    ensures |c.body.value.elems| >= 2 ==> Equal(c, c).Err? && Equal(c, c).error.ValueError?
    ensures c.body.value.elems == [] ==> Equal(c, c) == Ok(false)
    ensures |c.body.value.elems| == 1 ==> Equal(c, c) == Ok(true)
  {
    AttrsReflexive(c.attrs);
    if |c.body.value.elems| == 1 {
      ValueEqReflexive(c.body.value.elems[0]);
    }
  }

  /** Numerics compare by the number they hold, whatever its type: the
      default `0.0` equals a stored `0`, and `True` equals `1`. */
  lemma NumbersCompareByValue(c: Control, x: Value, y: Value)
    requires c.body.Numeric? && IsNumber(x) && IsNumber(y)
    ensures Equal(c.(body := Numeric(x)), c.(body := Numeric(y))) == Ok(NumberOf(x) == NumberOf(y))
    ensures Equal(c.(body := Numeric(FloatV(0.0))), c.(body := Numeric(IntV(0)))) == Ok(true)
    ensures Equal(c.(body := Numeric(BoolV(true))), c.(body := Numeric(IntV(1)))) == Ok(true)
  {
    AttrsReflexive(c.attrs);
  }

  /** As written, `zip` stops at the shorter cluster, so an empty Cluster
      equals every Cluster. */
  lemma EmptyClusterEqualsAny(a: Control, b: Control)
    requires a.body == Cluster([]) && b.body.Cluster?
    ensures Equal(a, b) == Ok(true)
  {
  }

  lemma {:induction false} EmptyClusterEqualsNonEmpty()
    ensures var a := Control(map[], UNKNOWN, Cluster([]));
            var m := Control(map[], UNKNOWN, Numeric(FloatV(0.0)));
            var b := Control(map[], UNKNOWN, Cluster([(StrV("x"), m)]));
            Equal(a, b) == Ok(true)
            && Equal(b, Control(map[], UNKNOWN, Cluster([(StrV("x"), m.(dataflow := CONTROL))]))) == Ok(false)
  {
    var m := Control(map[], UNKNOWN, Numeric(FloatV(0.0)));
    var b := Control(map[], UNKNOWN, Cluster([(StrV("x"), m)]));
    var b' := Control(map[], UNKNOWN, Cluster([(StrV("x"), m.(dataflow := CONTROL))]));
    assert Equal(m, m.(dataflow := CONTROL)) == Ok(false);
    assert MembersEqual(b, b', 0) == Ok(true);
    assert MembersEqual(b, b', 1) == Ok(false);
    assert MembersEqual(Control(map[], UNKNOWN, Cluster([])), b, 0) == Ok(true);
  }

  /** The corrected comparison tells clusters of different sizes apart and
      keeps every control equal to itself. */
  lemma {:induction false} EqualControlsCorrected(a: Control, b: Control)
    requires a.body.Cluster? && b.body.Cluster? && |a.body.ctrls| != |b.body.ctrls|
    ensures EqualControls(a, b) != Ok(true)
    ensures SelfComparable(a) ==> EqualControls(a, a) == Ok(true)
  {
    if SelfComparable(a) {
      EqualReflexive(a);
    }
  }
}
