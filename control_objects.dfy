/** The object layer of autolv/datatypes.py: a control is an object whose
    `value`, attributes and `_dataflow` are updated in place, and a Cluster
    fills and rewrites its `_ctrls` dict in loops. Each method is proved to
    leave the object in the state the matching function of `Datatypes`
    computes, and to raise the exception that function reports. Members
    are held by value; a member write goes through a fresh object for that
    member, which is then stored back under its name. */
module ControlObjects {
  import opened Dicts
  import opened PyValues
  import opened Datatypes
  import opened Text

  class LVControl {
    var attrs: map<string, Value>
    var dataflow: DataFlow
    var body: Body

    /** The control this object currently is. */
    function State(): Control
      reads this
    {
      Control(attrs, dataflow, body)
    }

    constructor (c: Control)
      ensures State() == c
    {
      attrs := c.attrs;
      dataflow := c.dataflow;
      body := c.body;
    }

    /** `make_control(**kwargs)`: the new object, or the exception raised
        while building it. */
    static method Make(kwargs: Value) returns (r: Result<LVControl>)
      ensures r.Ok? ==> fresh(r.value) && MakeControl(kwargs) == Ok(r.value.State())
      ensures r.Err? ==> MakeControl(kwargs) == Err(r.error)
      decreases kwargs, 3
    {
      var c := Build(kwargs);
      if c.Err? {
        return Err(c.error);
      }
      var o := new LVControl(c.value);
      r := Ok(o);
    }

    /** The control `make_control(**kwargs)` builds: `type` is popped and
        looked up, and a Cluster's members are built in a loop. */
    static method Build(kwargs: Value) returns (r: Result<Control>)
      ensures r == MakeControl(kwargs)
      decreases kwargs, 2
    {
      if !kwargs.DictV? {
        return Err(TypeError(kwargs));
      }
      var d := kwargs.entries;
      var bad := NonStrKey(d);
      if bad.Some? {
        return Err(TypeError(bad.value));
      }
      var t := Get(d, StrV("type"));
      if t.None? {
        return Err(KeyError(StrV("type")));
      }
      if !Hashable(t.value) {
        return Err(TypeError(t.value));
      }
      var cls := ClassFor(t.value);
      var attrs := InitAttributes(d, true);
      if attrs.Err? {
        return Err(attrs.error);
      }
      if cls == ClusterClass {
        r := BuildCluster(attrs.value, kwargs);
      } else {
        r := ConstructValue(cls, attrs.value, d);
      }
    }

    /** `Cluster.__init__` after the attributes: the members named in
        `ctrls`, or none. */
    static method BuildCluster(attrs: map<string, Value>, kwargs: Value) returns (r: Result<Control>)
      requires kwargs.DictV?
      ensures r == ConstructCluster(attrs, kwargs)
      decreases kwargs, 1
    {
      var found := Find(kwargs.entries, StrV("ctrls"));
      if found.None? {
        return Ok(Control(attrs, UNKNOWN, Cluster([])));
      }
      var ctrls := kwargs.entries[found.value].1;
      if !ctrls.DictV? {
        return Err(AttributeError("items"));
      }
      var members := BuildMembers(ctrls);
      if members.Err? {
        return Err(members.error);
      }
      r := Ok(Control(attrs, UNKNOWN, Cluster(members.value)));
    }

    /** `for name, attrs in ctrls.items(): self._ctrls[name] = make_control(**attrs)` */
    static method BuildMembers(ctrls: Value) returns (r: Result<Dict<Value, Control>>)
      requires ctrls.DictV?
      ensures r == MakeMembers(ctrls, |ctrls.entries|)
      decreases ctrls, 0
    {
      var members: Dict<Value, Control> := [];
      var n := 0;
      while n < |ctrls.entries|
        invariant n <= |ctrls.entries|
        invariant MakeMembers(ctrls, n) == Ok(members)
      {
        var name := ctrls.entries[n].0;
        var m := Build(ctrls.entries[n].1);
        if m.Err? || !Hashable(name) {
          MakeMembersFails(ctrls, n, members, m);
          return if m.Err? then Err(m.error) else Err(TypeError(name));
        }
        MakeMembersStep(ctrls, n, members, m.value);
        members := Put(members, name, m.value);
        n := n + 1;
      }
      assert n == |ctrls.entries|;
      r := Ok(members);
    }

    /** `control.value = v` */
    method SetValue(v: Value) returns (error: Option<Error>)
      modifies this
      ensures Assigned(State(), error) == AssignValue(old(State()), v)
      decreases State(), 2
    {
      if body.Cluster? && Find(body.ctrls, StrV("value")).Some? {
        var i := Find(body.ctrls, StrV("value")).value;
        var m := new LVControl(body.ctrls[i].1);
        error := m.SetValue(v);
        body := Cluster(body.ctrls[i := (body.ctrls[i].0, m.State())]);
      } else if body.Cluster? {
        if v.DictV? {
          error := Update(v.entries);
        } else {
          var xs := Iterate(v);
          if xs.None? {
            error := Some(TypeError(v));
          } else {
            error := AssignSequence(xs.value);
          }
        }
      } else {
        var b := Convert(ClassOf(body), attrs, v);
        if b.Ok? {
          body := b.value;
          error := None;
        } else {
          error := Some(b.error);
        }
      }
    }

    /** `Cluster.update(controls)`: `self._ctrls[name].value = controls[name]`
        for each name in turn; the first exception ends the loop. */
    method Update(entries: Dict<Value, Value>) returns (error: Option<Error>)
      requires body.Cluster?
      modifies this
      ensures Assigned(State(), error) == UpdateMembers(old(State()), entries, |entries|)
      decreases State(), 1
    {
      var c := State();
      var n := 0;
      error := None;
      while n < |entries|
        invariant n <= |entries| && error.None?
        invariant UpdateMembers(c, entries, n) == Assigned(State(), error)
      {
        UpdateMembersStep(c, entries, n, State());
        var name := entries[n].0;
        if !Hashable(name) {
          error := Some(TypeError(name));
        } else if Find(c.body.ctrls, name).None? {
          error := Some(KeyError(name));
        } else {
          var i := Find(c.body.ctrls, name).value;
          var m := new LVControl(c.body.ctrls[i].1);
          error := m.SetValue(entries[n].1);
          body := Cluster(body.ctrls[i := (c.body.ctrls[i].0, m.State())]);
        }
        n := n + 1;
        if error.Some? {
          UpdateMembersStops(c, entries, n, |entries|);
          return;
        }
      }
      assert n == |entries|;
    }

    /** `for c, v in zip(self._ctrls, value): self._ctrls[c].value = v` */
    method AssignSequence(xs: seq<Value>) returns (error: Option<Error>)
      requires body.Cluster?
      modifies this
      ensures Assigned(State(), error) ==
              AssignPositional(old(State()), xs, if |old(State()).body.ctrls| < |xs| then |old(State()).body.ctrls| else |xs|)
      decreases State(), 1
    {
      var c := State();
      var len := if |c.body.ctrls| < |xs| then |c.body.ctrls| else |xs|;
      var n := 0;
      error := None;
      while n < len
        invariant n <= len && error.None?
        invariant AssignPositional(c, xs, n) == Assigned(State(), error)
      {
        ghost var d := State();
        var m := new LVControl(c.body.ctrls[n].1);
        error := m.SetValue(xs[n]);
        AssignPositionalStep(c, xs, n, d, m.State(), error);
        body := Cluster(body.ctrls[n := (c.body.ctrls[n].0, m.State())]);
        n := n + 1;
        if error.Some? {
          AssignPositionalStops(c, xs, n, len);
          return;
        }
      }
      assert n == len;
    }

    /** `setattr(control, item, v)` */
    method SetAttribute(item: string, v: Value) returns (error: Option<Error>)
      modifies this
      ensures Assigned(State(), error) == Datatypes.SetAttribute(old(State()), item, v)
      decreases State(), 3
    {
      if body.Cluster? && HasKey(body.ctrls, StrV(item)) {
        var i := Find(body.ctrls, StrV(item)).value;
        var m := new LVControl(body.ctrls[i].1);
        error := m.SetValue(v);
        body := Cluster(body.ctrls[i := (StrV(item), m.State())]);
      } else if item == "value" {
        error := SetValue(v);
      } else if item in attrs && item in ReadOnlyAttributes {
        error := Some(CannotSet(item));
      } else {
        attrs := attrs[item := v];
        error := None;
      }
    }

    /** `set_dataflow(direction)`: on a name `DataFlow` does not have, the
        KeyError leaves the object as it was. */
    method SetDataflow(direction: string) returns (error: Option<Error>)
      modifies this
      ensures Datatypes.SetDataflow(old(State()), direction).Ok? ==>
              error.None? && State() == Datatypes.SetDataflow(old(State()), direction).value
      ensures Datatypes.SetDataflow(old(State()), direction).Err? ==>
              error == Some(Datatypes.SetDataflow(old(State()), direction).error) && State() == old(State())
    {
      var d := DataFlowMember(Upper(direction));
      if d.None? {
        error := Some(KeyError(StrV(Upper(direction))));
      } else {
        dataflow := d.value;
        error := None;
      }
    }

    /** `control.value` as read back; a Cluster collects its members'
        values in a loop. */
    method GetValue() returns (r: Result<Value>)
      ensures r == ReadValue(State())
      decreases State(), 1
    {
      match body
      case Cluster(members) =>
        var vs := ReadCluster();
        r := if vs.Err? then Err(vs.error) else Ok(ListV(vs.value));
      case Path(p) => r := Ok(StrV(p));
      case NotImplControl(stored) =>
        r := if stored.Some? then Ok(stored.value) else Err(AttributeError("value"));
      case Numeric(v) => r := Ok(v);
      case Boolean(v) => r := Ok(v);
      case Array(v) => r := Ok(v);
      case String(v) => r := Ok(v);
      case TimeStamp(v) => r := Ok(v);
      case Enum(v) => r := Ok(v);
      case IORefNum(_, v) => r := Ok(v);
      case Ring(v) => r := Ok(v);
    }

    /** The loop of the Cluster `value` property: each member's value in
        member order; the first read that raises ends it. */
    method ReadCluster() returns (r: Result<seq<Value>>)
      requires body.Cluster?
      ensures r == ReadMembers(State(), |body.ctrls|)
      decreases State(), 0
    {
      var c := State();
      var values: seq<Value> := [];
      var n := 0;
      while n < |c.body.ctrls|
        invariant n <= |c.body.ctrls|
        invariant ReadMembers(c, n) == Ok(values)
      {
        var m := new LVControl(c.body.ctrls[n].1);
        var x := m.GetValue();
        if x.Err? {
          ReadMembersFails(c, n, values, x.error);
          return Err(x.error);
        }
        ReadMembersStep(c, n, values, x.value);
        values := values + [x.value];
        n := n + 1;
      }
      assert n == |c.body.ctrls|;
      r := Ok(values);
    }

    /** `Cluster.index(control)`: the first position whose name equals it. */
    method Index(key: Value) returns (r: Result<nat>)
      requires body.Cluster?
      ensures r == IndexOfMember(State(), key)
    {
      var n := 0;
      while n < |body.ctrls|
        invariant n <= |body.ctrls|
        invariant forall j :: 0 <= j < n ==> body.ctrls[j].0 != key
      {
        if body.ctrls[n].0 == key {
          FindFirst(body.ctrls, key, n);
          return Ok(n);
        }
        n := n + 1;
      }
      r := Err(ValueError(key));
    }

    /** `self == other`: a Cluster collects one test per pair of names and
        one per pair of members that `zip` forms, raising with the first
        member comparison that raises, and returns `all` of them. */
    method Equals(other: LVControl) returns (r: Result<bool>)
      ensures r == Equal(State(), other.State())
      decreases State()
    {
      var a, b := State(), other.State();
      if ClassOf(body) != ClassOf(other.body) {
        return Ok(false);
      }
      if !body.Cluster? {
        return FieldsEqual(a, b);
      }
      var len := if |a.body.ctrls| < |b.body.ctrls| then |a.body.ctrls| else |b.body.ctrls|;
      var n := 0;
      var all := true;
      while n < len
        invariant n <= len
        invariant MembersEqual(a, b, n) == Ok(all)
      {
        var ma := new LVControl(a.body.ctrls[n].1);
        var mb := new LVControl(b.body.ctrls[n].1);
        var same := ma.Equals(mb);
        if same.Err? {
          MembersEqualStops(a, b, n + 1, len);
          return Err(same.error);
        }
        all := all && ValueEq(a.body.ctrls[n].0, b.body.ctrls[n].0) && same.value;
        n := n + 1;
      }
      assert n == len;
      r := Ok(all);
    }
  }

  // Dafny proves the five lemmas below by induction on its own.

  /** Once a member comparison raises, `__eq__` raises with it. */
  lemma MembersEqualStops(a: Control, b: Control, n: nat, m: nat)
    requires a.body.Cluster? && b.body.Cluster?
    requires n <= m <= |a.body.ctrls| && m <= |b.body.ctrls|
    requires MembersEqual(a, b, n).Err?
    ensures MembersEqual(a, b, m) == MembersEqual(a, b, n)
  {
  }

  /** Once a member write raises, the `update` loop assigns nothing more. */
  lemma UpdateMembersStops(c: Control, entries: Dict<Value, Value>, n: nat, m: nat)
    requires c.body.Cluster? && n <= m <= |entries|
    requires UpdateMembers(c, entries, n).error.Some?
    ensures UpdateMembers(c, entries, m) == UpdateMembers(c, entries, n)
  {
  }

  /** Once a member write raises, the `zip` loop assigns nothing more. */
  lemma AssignPositionalStops(c: Control, xs: seq<Value>, n: nat, m: nat)
    requires c.body.Cluster? && n <= m <= |c.body.ctrls| && m <= |xs|
    requires AssignPositional(c, xs, n).error.Some?
    ensures AssignPositional(c, xs, m) == AssignPositional(c, xs, n)
  {
  }

  /** Once a member read raises, reading the cluster raises that exception. */
  lemma ReadMembersStops(c: Control, n: nat, m: nat)
    requires c.body.Cluster? && n <= m <= |c.body.ctrls|
    requires ReadMembers(c, n).Err?
    ensures ReadMembers(c, m) == ReadMembers(c, n)
  {
  }

  /** Once building a member raises, `Cluster.__init__` raises that exception. */
  lemma MakeMembersStops(ctrls: Value, n: nat, m: nat)
    requires ctrls.DictV? && n <= m <= |ctrls.entries|
    requires MakeMembers(ctrls, n).Err?
    ensures MakeMembers(ctrls, m) == MakeMembers(ctrls, n)
  {
  }

  /** One pass of the `Cluster.__init__` loop that stores the member `m`. */
  lemma MakeMembersStep(ctrls: Value, n: nat, members: Dict<Value, Control>, m: Control)
    requires ctrls.DictV? && n < |ctrls.entries|
    requires MakeMembers(ctrls, n) == Ok(members)
    requires MakeControl(ctrls.entries[n].1) == Ok(m) && Hashable(ctrls.entries[n].0)
    ensures MakeMembers(ctrls, n + 1) == Ok(Put(members, ctrls.entries[n].0, m))
  {
  }

  /** A pass of the `Cluster.__init__` loop that raises: building the member
      failed, or its name cannot be a dict key. */
  lemma MakeMembersFails(ctrls: Value, n: nat, members: Dict<Value, Control>, m: Result<Control>)
    requires ctrls.DictV? && n < |ctrls.entries|
    requires MakeMembers(ctrls, n) == Ok(members)
    requires m == MakeControl(ctrls.entries[n].1)
    requires m.Err? || !Hashable(ctrls.entries[n].0)
    ensures MakeMembers(ctrls, |ctrls.entries|) ==
            if m.Err? then Err(m.error) else Err(TypeError(ctrls.entries[n].0))
  {
    assert MakeMembers(ctrls, n + 1) == if m.Err? then Err(m.error) else Err(TypeError(ctrls.entries[n].0));
    MakeMembersStops(ctrls, n + 1, |ctrls.entries|);
  }

  /** One pass of the `update` loop. */
  lemma UpdateMembersStep(c: Control, entries: Dict<Value, Value>, n: nat, d: Control)
    requires c.body.Cluster? && n < |entries|
    requires UpdateMembers(c, entries, n) == Assigned(d, None)
    ensures UpdateMembers(c, entries, n + 1) == UpdateEntry(c, d, entries[n])
  {
  }

  /** One pass of the `zip` loop: the `n`-th member, written as `m` with
      exception `e`, is stored back in its place. */
  lemma {:induction false} AssignPositionalStep(c: Control, xs: seq<Value>, n: nat, d: Control, m: Control, e: Option<Error>)
    requires c.body.Cluster? && n < |c.body.ctrls| && n < |xs|
    requires AssignPositional(c, xs, n) == Assigned(d, None)
    requires AssignValue(c.body.ctrls[n].1, xs[n]) == Assigned(m, e)
    ensures AssignPositional(c, xs, n + 1) ==
            Assigned(d.(body := Cluster(d.body.ctrls[n := (c.body.ctrls[n].0, m)])), e)
  {
    assert AssignPositional(c, xs, n + 1) == AssignMember(c, d, n, AssignValue(c.body.ctrls[n].1, xs[n]));
  }

  /** A pass of the loop of the `value` property whose read raises `e`. */
  lemma {:induction false} ReadMembersFails(c: Control, n: nat, values: seq<Value>, e: Error)
    requires c.body.Cluster? && n < |c.body.ctrls|
    requires ReadMembers(c, n) == Ok(values)
    requires ReadValue(c.body.ctrls[n].1) == Err(e)
    ensures ReadMembers(c, |c.body.ctrls|) == Err(e)
  {
    assert ReadMembers(c, n + 1) == Err(e);
    ReadMembersStops(c, n + 1, |c.body.ctrls|);
  }
}
