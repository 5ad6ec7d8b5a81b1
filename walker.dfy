/** The walker `_recurse_ctrls`, which turns the repaired VI strings document
    into one attribute dictionary per control, collected in a dictionary
    keyed by the control's name. The element tree stands in for the parsed
    XML. The functions state the walk loop by loop, each in accumulator form
    from a loop position onwards, so that an exception ends the whole walk
    as it does in Python; the methods at the end fill the dictionaries in
    loops as the source does and are proved equal to those functions. */
module Walker {
  import opened Dicts
  import opened PyValues
  import opened Text

  /** An XML element: tag, attributes in document order, text, children. */
  datatype Element = Element(
    tag: string,
    attrib: Dict<string, string>,
    text: Option<string>,
    children: seq<Element>)

  /** The values the walker puts in an attribute dictionary. */
  datatype Field =
    | Str(s: string)
    | Null
    | Items(texts: seq<Option<string>>)
    | Members(ctrls: Controls)
    | Pages(pages: Dict<Option<string>, Controls>)

  type Attrs = Dict<string, Field>

  /** Attribute dictionaries by control name; the key `None` is Python's `None`. */
  type Controls = Dict<Option<string>, Attrs>

  /** The walker's locals `controls` and `attrs`; `attrs` is `None` until it
      is first bound, and keeps its value from one control to the next. */
  datatype Locals = Locals(controls: Controls, attrs: Option<Attrs>)

  // Element access

  /** `find`: the first element with the tag. */
  function FirstOf(es: seq<Element>, tag: string): (r: Option<Element>)
    ensures r.Some? ==> r.value.tag == tag
    ensures r.Some? ==> exists i :: 0 <= i < |es| && es[i] == r.value && forall j :: 0 <= j < i ==> es[j].tag != tag
    ensures r.None? ==> forall x :: x in es ==> x.tag != tag
  {
    if es == [] then None
    else if es[0].tag == tag then Some(es[0])
    else
      var r := FirstOf(es[1..], tag);
      assert r.Some? ==> exists i :: 1 <= i < |es| && es[i] == r.value && forall j :: 0 <= j < i ==> es[j].tag != tag by {
        if r.Some? {
          var i :| 0 <= i < |es[1..]| && es[1..][i] == r.value && forall j :: 0 <= j < i ==> es[1..][j].tag != tag;
          assert es[i + 1] == r.value;
          assert forall j :: 1 <= j < i + 1 ==> es[j] == es[1..][j - 1];
        }
      }
      r
  }

  /** `e.find(tag)`: the first child with that tag. */
  function FirstChild(e: Element, tag: string): (r: Option<Element>)
    ensures r.Some? ==> r.value in e.children && r.value.tag == tag
    ensures r.Some? ==>
      exists i :: 0 <= i < |e.children| && e.children[i] == r.value && forall j :: 0 <= j < i ==> e.children[j].tag != tag
    ensures r.None? ==> forall x :: x in e.children ==> x.tag != tag
  {
    FirstOf(e.children, tag)
  }

  function Tagged(es: seq<Element>, tag: string): (r: seq<Element>)
    ensures forall x :: x in r ==> x in es && x.tag == tag
  {
    if es == [] then []
    else (if es[0].tag == tag then [es[0]] else []) + Tagged(es[1..], tag)
  }

  /** `e.iterfind(tag)`: the children with that tag, in document order. */
  function IterFind(e: Element, tag: string): (r: seq<Element>)
    ensures forall x :: x in r ==> x in e.children && x.tag == tag
  {
    Tagged(e.children, tag)
  }

  /** `e.find(tag)` followed by the attribute access `.attr`, which raises
      `AttributeError` on the `None` of a missing child. */
  function Child(e: Element, tag: string, attr: string): (r: Result<Element>)
    ensures r.Ok? ==> r.value in e.children && r.value.tag == tag
    ensures r.Err? ==> r.error == AttributeError(attr)
    ensures r.Err? ==> forall x :: x in e.children ==> x.tag != tag
  {
    match FirstChild(e, tag)
    case None => Err(AttributeError(attr))
    case Some(x) => Ok(x)
  }

  /** `e.attrib[name]` */
  function Attrib(e: Element, name: string): (r: Result<string>)
    ensures r.Ok? <==> HasKey(e.attrib, name)
    ensures r.Ok? ==> Get(e.attrib, name) == Some(r.value)
    ensures r.Err? ==> r.error == KeyError(StrV(name))
  {
    match Get(e.attrib, name)
    case None => Err(KeyError(StrV(name)))
    case Some(v) => Ok(v)
  }

  /** An element's `.text`, which is `None` for an element without text. */
  function FromText(t: Option<string>): Field {
    if t.Some? then Str(t.value) else Null
  }

  /** The `.text` of each element, in order. */
  function Texts(es: seq<Element>): (r: seq<Option<string>>)
    ensures |r| == |es|
    ensures forall i :: 0 <= i < |es| ==> r[i] == es[i].text
  {
    if es == [] then [] else [es[0].text] + Texts(es[1..])
  }

  function StrFields(a: Dict<string, string>): (r: Attrs)
    ensures |r| == |a|
    ensures forall i :: 0 <= i < |a| ==> r[i] == (a[i].0, Str(a[i].1))
  {
    if a == [] then [] else [(a[0].0, Str(a[0].1))] + StrFields(a[1..])
  }

  /** `attrs.update(e.attrib)` */
  function WithAttrib(attrs: Attrs, a: Dict<string, string>): Attrs {
    Update(attrs, StrFields(a))
  }

  /** `desc = e.find("DESC").text` and `tip = e.find("TIP").text`. */
  function DescTip(e: Element): (r: Result<(Field, Field)>)
    ensures r.Ok? <==> FirstChild(e, "DESC").Some? && FirstChild(e, "TIP").Some?
  {
    var desc :- Child(e, "DESC", "text");
    var tip :- Child(e, "TIP", "text");
    Ok((FromText(desc.text), FromText(tip.text)))
  }

  /** `attrs.update({"description": desc, "tip": tip})` */
  function Describe(attrs: Attrs, dt: (Field, Field)): (r: Attrs)
    ensures Get(r, "description") == Some(dt.0) && Get(r, "tip") == Some(dt.1)
    ensures forall k :: k != "description" && k != "tip" ==> Get(r, k) == Get(attrs, k)
  {
    Put(Put(attrs, "description", dt.0), "tip", dt.1)
  }

  /** `attrs["name"]` used as a key of `controls`. */
  function NameKey(attrs: Attrs): Result<Option<string>> {
    AsKey(Get(attrs, "name"))
  }

  /** A looked-up field as a dictionary key: a missing one raises
      `KeyError`, and a list or a dictionary is not hashable (the culprit
      is reported as an empty one). */
  function AsKey(f: Option<Field>): (r: Result<Option<string>>)
    ensures f.None? ==> r == Err(KeyError(StrV("name")))
    ensures r.Ok? <==> f.Some? && (f.value.Str? || f.value.Null?)
    ensures r.Ok? ==> f == Some(if r.value.Some? then Str(r.value.value) else Null)
    ensures r.Err? && f.Some? ==> r.error.TypeError?
  {
    match f
    case None => Err(KeyError(StrV("name")))
    case Some(v) =>
      if v.Str? then Ok(Some(v.s))
      else if v.Null? then Ok(None)
      else if v.Items? then Err(TypeError(ListV([])))
      else Err(TypeError(DictV([])))
  }

  /** `controls[attrs["name"]] = attrs` */
  function Store(controls: Controls, attrs: Attrs): (r: Result<Locals>)
    ensures r.Ok? <==> NameKey(attrs).Ok?
    ensures r.Ok? ==> r.value.attrs == Some(attrs)
    ensures r.Ok? ==> r.value.controls == Put(controls, NameKey(attrs).value, attrs)
  {
    var key :- NameKey(attrs);
    Ok(Locals(Put(controls, key, attrs), Some(attrs)))
  }

  /** Every dictionary is filed under its own `name`. */
  predicate KeyedByName(controls: Controls) {
    forall p :: p in controls ==> NameKey(p.1) == Ok(p.0)
  }

  /** One pass of the control loop stored `attrs` under its name. */
  predicate Stored(before: Controls, after: Locals) {
    && after.attrs.Some?
    && NameKey(after.attrs.value).Ok?
    && after.controls == Put(before, NameKey(after.attrs.value).value, after.attrs.value)
  }

  // The walk

  /** `_recurse_ctrls(e)` */
  function Walk(e: Element): (r: Result<Controls>)
    ensures r.Ok? ==> KeyedByName(r.value)
    decreases e, 3
  {
    var merged :- MergeGroupers(e, 0, []);
    var locals :- ControlLoop(e, 0, Locals(merged, None));
    Ok(locals.controls)
  }

  /** `for grouper in e.iterfind("GROUPER"): for parts in
      grouper.iterfind("PARTS"): controls.update(_recurse_ctrls(parts))`,
      from the `from`-th grouper on. */
  function MergeGroupers(e: Element, from: nat, acc: Controls): (r: Result<Controls>)
    ensures r.Ok? && KeyedByName(acc) ==> KeyedByName(r.value)
    decreases e, 2, |IterFind(e, "GROUPER")| - from
  {
    var groupers := IterFind(e, "GROUPER");
    if from >= |groupers| then Ok(acc)
    else
      assert groupers[from] in groupers;
      var acc' :- MergeParts(groupers[from], 0, acc);
      MergeGroupers(e, from + 1, acc')
  }

  /** The inner loop over one grouper's PARTS, from the `from`-th on. */
  function MergeParts(g: Element, from: nat, acc: Controls): (r: Result<Controls>)
    ensures r.Ok? && KeyedByName(acc) ==> KeyedByName(r.value)
    decreases g, 2, |IterFind(g, "PARTS")| - from
  {
    var parts := IterFind(g, "PARTS");
    if from >= |parts| then Ok(acc)
    else
      assert parts[from] in parts;
      var w :- Walk(parts[from]);
      KeyedUpdate(acc, w);
      MergeParts(g, from + 1, Update(acc, w))
  }

  /** `for control in e.iterfind("CONTROL"): ...`, from the `from`-th on. */
  function ControlLoop(e: Element, from: nat, locals: Locals): (r: Result<Locals>)
    ensures r.Ok? && KeyedByName(locals.controls) ==> KeyedByName(r.value.controls)
    decreases e, 2, |IterFind(e, "CONTROL")| - from
  {
    var ctrls := IterFind(e, "CONTROL");
    if from >= |ctrls| then Ok(locals)
    else
      assert ctrls[from] in ctrls;
      var next :- ControlEntry(ctrls[from], locals);
      ControlLoop(e, from + 1, next)
  }

  /** One pass of the control loop: the branch the control's type selects. */
  function ControlEntry(c: Element, locals: Locals): (r: Result<Locals>)
    ensures r.Ok? ==> Stored(locals.controls, r.value)
    ensures r.Ok? && KeyedByName(locals.controls) ==> KeyedByName(r.value.controls)
    decreases c, 2
  {
    var ty :- Attrib(c, "type");
    var r :=
      if ty == "Type Definition" then TypeDefEntry(c, locals)
      else if ty == "Tab Control" then TabEntry(c, locals.controls)
      else if ty == "Array" then ArrayEntry(c, locals.controls)
      else OtherEntry(c, locals.controls);
    if r.Ok? then KeyedPut(locals.controls, r.value); r else r
  }

  /** A Type Definition: the attributes of the control inside it, renamed
      after the definition. When no part holds that control, whatever
      `attrs` still refers to is used instead. */
  function TypeDefEntry(c: Element, locals: Locals): (r: Result<Locals>)
    ensures r.Ok? ==> Stored(locals.controls, r.value)
    decreases c, 1
  {
    var parts :- Child(c, "PARTS", "iterfind");
    var found :- TypeDefScan(c, parts, 0);
    var dt :- DescTip(c);
    var attrs := if found.Some? then found else locals.attrs;
    if attrs.None? then Err(UnboundLocalError("attrs"))
    else Store(locals.controls, Describe(attrs.value, dt))
  }

  /** `for part in parts.iterfind("PART")`, up to the first of type
      "Type Def's Control", whose entry `""` is popped and renamed. */
  function TypeDefScan(c: Element, parts: Element, from: nat): (r: Result<Option<Attrs>>)
    decreases parts, 1, |IterFind(parts, "PART")| - from
  {
    var ps := IterFind(parts, "PART");
    if from >= |ps| then Ok(None)
    else
      var t :- Attrib(ps[from], "type");
      if t != "Type Def's Control" then TypeDefScan(c, parts, from + 1)
      else
        var inner :- Walk(ps[from]);
        match Pop(inner, Some(""))
        case None => Err(KeyError(StrV("")))
        case Some(popped) =>
          var name :- Attrib(c, "name");
          Ok(Some(Put(popped.0, "name", Str(name))))
  }

  /** A Tab Control: its attributes and the page maps keyed by caption. */
  function TabEntry(c: Element, controls: Controls): (r: Result<Locals>)
    ensures r.Ok? ==> Stored(controls, r.value)
    decreases c, 1
  {
    var dt :- DescTip(c);
    var attrs := Describe(WithAttrib([], c.attrib), dt);
    var pages :- PageMaps(c, 0, []);
    var captions :- Captions(c);
    Store(controls, Put(attrs, "pages", Pages(FromPairs(Zip(captions, pages)))))
  }

  /** `pages.append(_recurse_ctrls(page))` for each PAGE from the `from`-th on. */
  function PageMaps(c: Element, from: nat, acc: seq<Controls>): (r: Result<seq<Controls>>)
    decreases c, 0, |IterFind(c, "PAGE")| - from
  {
    var pageElems := IterFind(c, "PAGE");
    if from >= |pageElems| then Ok(acc)
    else
      assert pageElems[from] in pageElems;
      var page :- Walk(pageElems[from]);
      PageMaps(c, from + 1, acc + [page])
  }

  /** The texts of `c.find("PRIV").find("PAGE_CAPTIONS").iterfind("STRING")`. */
  function Captions(c: Element): (r: Result<seq<Option<string>>>)
    ensures FirstChild(c, "PRIV").None? ==> r == Err(AttributeError("find"))
    ensures r.Ok? ==> FirstChild(c, "PRIV").Some? && FirstChild(FirstChild(c, "PRIV").value, "PAGE_CAPTIONS").Some?
    ensures r.Ok? ==> r.value == Texts(IterFind(FirstChild(FirstChild(c, "PRIV").value, "PAGE_CAPTIONS").value, "STRING"))
  {
    var priv :- Child(c, "PRIV", "find");
    var captions :- Child(priv, "PAGE_CAPTIONS", "iterfind");
    Ok(Texts(IterFind(captions, "STRING")))
  }

  /** An Array: an array of clusters is retyped and carries the cluster's
      own controls; any other array has `cluster` set to `None`. */
  function ArrayEntry(c: Element, controls: Controls): (r: Result<Locals>)
    ensures r.Ok? ==> Stored(controls, r.value)
    decreases c, 1
  {
    var dt :- DescTip(c);
    var attrs := Describe(WithAttrib([("cluster", Null)], c.attrib), dt);
    var content :- Child(c, "CONTENT", "find");
    var elementType :- ElementType(content);
    FileArray(controls, attrs, content, elementType)
  }

  /** The retyping of an array of clusters, then `controls[attrs["name"]] = attrs`. */
  function FileArray(controls: Controls, attrs: Attrs, content: Element, elementType: string): (r: Result<Locals>)
    ensures r.Ok? ==> Stored(controls, r.value)
    decreases content, 4
  {
    if elementType == "Cluster" then
      var layout :- Walk(content);
      Store(controls, Put(Put(attrs, "type", Str("ArrayCluster")), "cluster", Members(layout)))
    else
      Store(controls, attrs)
  }

  /** `content.find("CONTROL").attrib["type"]` */
  function ElementType(content: Element): (r: Result<string>)
    ensures r.Ok? ==> exists x :: x in content.children && x.tag == "CONTROL" && Get(x.attrib, "type") == Some(r.value)
    ensures r.Err? ==> r.error == AttributeError("attrib") || r.error == KeyError(StrV("type"))
    ensures (forall x :: x in content.children ==> x.tag != "CONTROL") ==> r == Err(AttributeError("attrib"))
  {
    var elementCtrl :- Child(content, "CONTROL", "attrib");
    Attrib(elementCtrl, "type")
  }

  /** Any other control: its attributes, one entry per labelled part, the
      items of a ring, and for a Cluster the controls it contains. */
  function OtherEntry(c: Element, controls: Controls): (r: Result<Locals>)
    ensures r.Ok? ==> Stored(controls, r.value)
    decreases c, 1
  {
    var dt :- DescTip(c);
    var parts := FirstChild(c, "PARTS");
    if parts.None? then Err(TypeError(NoneV))
    else
      var attrs :- PartScan(parts.value, 0, Describe(WithAttrib([], c.attrib), dt));
      FileControl(c, controls, attrs)
  }

  /** `controls[attrs["name"]] = attrs`, and for a Cluster
      `controls[attrs["name"]]["ctrls"] = _recurse_ctrls(c.find("CONTENT"))`,
      which changes the dictionary just filed. */
  function FileControl(c: Element, controls: Controls, attrs: Attrs): (r: Result<Locals>)
    ensures r.Ok? ==> Stored(controls, r.value)
    decreases c, 0
  {
    var stored :- Store(controls, attrs);
    match Get(attrs, "type")
    case None => Err(KeyError(StrV("type")))
    case Some(ty) =>
      if ty != Str("Cluster") then Ok(stored)
      else
        var content :- Child(c, "CONTENT", "iterfind");
        var members :- Walk(content);
        var attrs' := Put(attrs, "ctrls", Members(members));
        ClusterRestored(controls, attrs, Members(members));
        Ok(Locals(Put(stored.controls, NameKey(attrs).value, attrs'), Some(attrs')))
  }

  /** `for part in parts`, over every child, from the `from`-th on. */
  function PartScan(parts: Element, from: nat, attrs: Attrs): (r: Result<Attrs>)
    ensures r.Ok? ==> forall k :: Get(attrs, k).Some? ==> Get(r.value, k).Some?
    decreases |parts.children| - from
  {
    if from >= |parts.children| then Ok(attrs)
    else
      var attrs' :- PartEntry(parts.children[from], attrs);
      PartScan(parts, from + 1, attrs')
  }

  /** The part type, lower-cased and without spaces. */
  function PartType(t: string): string {
    Erase(Lower(t), ' ')
  }

  /** `part.find("LABEL").find("STEXT").text`, or `None` where the
      `AttributeError` of a missing child is caught. */
  function LabelText(part: Element): (r: Option<Option<string>>)
    ensures r.Some? ==>
      exists l :: l in part.children && l.tag == "LABEL" && exists st :: st in l.children && st.tag == "STEXT" && st.text == r.value
    ensures (forall l :: l in part.children ==> l.tag != "LABEL") ==> r.None?
  {
    match FirstChild(part, "LABEL")
    case None => None
    case Some(labelElem) =>
      (match FirstChild(labelElem, "STEXT")
       case None => None
       case Some(stext) => Some(stext.text))
  }

  /** One part: its label text under the part type, and the items of a
      ring text. */
  function PartEntry(part: Element, attrs: Attrs): (r: Result<Attrs>)
    ensures r.Ok? ==> forall k :: Get(attrs, k).Some? ==> Get(r.value, k).Some?
    ensures !HasKey(part.attrib, "type") ==> r == Err(KeyError(StrV("type")))
    ensures r.Err? && HasKey(part.attrib, "type") ==> PartType(Attrib(part, "type").value) == "ringtext"
  {
    var t :- Attrib(part, "type");
    var parttype := PartType(t);
    var text := LabelText(part);
    var labelled := if text.Some? then Put(attrs, parttype, FromText(text.value)) else attrs;
    if parttype == "ringtext" then
      var mlabel :- Child(part, "MLABEL", "find");
      var strings :- Child(mlabel, "STRINGS", "iterfind");
      Ok(Put(labelled, "items", Items(Texts(IterFind(strings, "STRING")))))
    else Ok(labelled)
  }

  // What the walk promises

  /** A grouper's controls are merged into the level that holds it: when the
      walk succeeds, so does the walk of each PARTS of each GROUPER, and
      each name it finds is a name of the whole walk. */
  lemma {:induction false} GrouperControlsMerged(e: Element, gi: nat, pi: nat)
    requires gi < |IterFind(e, "GROUPER")|
    requires pi < |IterFind(IterFind(e, "GROUPER")[gi], "PARTS")|
    requires Walk(e).Ok?
    ensures Walk(IterFind(IterFind(e, "GROUPER")[gi], "PARTS")[pi]).Ok?
    ensures KeysWithin(Walk(IterFind(IterFind(e, "GROUPER")[gi], "PARTS")[pi]).value, Walk(e).value)
  {
    var merged := MergeGroupers(e, 0, []);
    MergeGroupersWithin(e, 0, [], gi, pi);
    ControlLoopWithin(e, 0, Locals(merged.value, None));
  }

  lemma {:induction false} MergeGroupersWithin(e: Element, from: nat, acc: Controls, gi: nat, pi: nat)
    requires MergeGroupers(e, from, acc).Ok?
    requires from <= gi < |IterFind(e, "GROUPER")|
    requires pi < |IterFind(IterFind(e, "GROUPER")[gi], "PARTS")|
    ensures Walk(IterFind(IterFind(e, "GROUPER")[gi], "PARTS")[pi]).Ok?
    ensures KeysWithin(Walk(IterFind(IterFind(e, "GROUPER")[gi], "PARTS")[pi]).value, MergeGroupers(e, from, acc).value)
    decreases |IterFind(e, "GROUPER")| - from
  {
    var groupers := IterFind(e, "GROUPER");
    var acc' := MergeParts(groupers[from], 0, acc);
    assert MergeGroupers(e, from, acc) == MergeGroupers(e, from + 1, acc'.value);
    MergeGroupersKeeps(e, from + 1, acc'.value);
    if gi == from {
      MergePartsWithin(groupers[from], 0, acc, pi);
    } else {
      MergeGroupersWithin(e, from + 1, acc'.value, gi, pi);
    }
  }

  lemma {:induction false} MergeGroupersKeeps(e: Element, from: nat, acc: Controls)
    requires MergeGroupers(e, from, acc).Ok?
    ensures KeysWithin(acc, MergeGroupers(e, from, acc).value)
    decreases |IterFind(e, "GROUPER")| - from
  {
    var groupers := IterFind(e, "GROUPER");
    if from < |groupers| {
      var acc' := MergeParts(groupers[from], 0, acc);
      assert acc'.Ok?;
      assert MergeGroupers(e, from, acc) == MergeGroupers(e, from + 1, acc'.value);
      MergePartsKeeps(groupers[from], 0, acc);
      MergeGroupersKeeps(e, from + 1, acc'.value);
    }
  }

  lemma {:induction false} MergePartsWithin(g: Element, from: nat, acc: Controls, pi: nat)
    requires MergeParts(g, from, acc).Ok?
    requires from <= pi < |IterFind(g, "PARTS")|
    ensures Walk(IterFind(g, "PARTS")[pi]).Ok?
    ensures KeysWithin(Walk(IterFind(g, "PARTS")[pi]).value, MergeParts(g, from, acc).value)
    decreases |IterFind(g, "PARTS")| - from
  {
    var parts := IterFind(g, "PARTS");
    var w := Walk(parts[from]).value;
    assert MergeParts(g, from, acc) == MergeParts(g, from + 1, Update(acc, w));
    UpdateWithin(acc, w);
    MergePartsKeeps(g, from + 1, Update(acc, w));
    if pi > from {
      MergePartsWithin(g, from + 1, Update(acc, w), pi);
    }
  }

  lemma {:induction false} MergePartsKeeps(g: Element, from: nat, acc: Controls)
    requires MergeParts(g, from, acc).Ok?
    ensures KeysWithin(acc, MergeParts(g, from, acc).value)
    decreases |IterFind(g, "PARTS")| - from
  {
    var parts := IterFind(g, "PARTS");
    if from < |parts| {
      var w := Walk(parts[from]).value;
      assert MergeParts(g, from, acc) == MergeParts(g, from + 1, Update(acc, w));
      UpdateWithin(acc, w);
      MergePartsKeeps(g, from + 1, Update(acc, w));
    }
  }

  /** The control loop only adds names. */
  lemma {:induction false} ControlLoopWithin(e: Element, from: nat, locals: Locals)
    requires ControlLoop(e, from, locals).Ok?
    ensures KeysWithin(locals.controls, ControlLoop(e, from, locals).value.controls)
    decreases |IterFind(e, "CONTROL")| - from
  {
    var ctrls := IterFind(e, "CONTROL");
    if from < |ctrls| {
      var next := ControlEntry(ctrls[from], locals).value;
      assert ControlLoop(e, from, locals) == ControlLoop(e, from + 1, next);
      StoredWithin(locals.controls, next);
      ControlLoopWithin(e, from + 1, next);
    }
  }

  lemma {:induction false} StoredWithin(before: Controls, after: Locals)
    requires Stored(before, after)
    ensures KeysWithin(before, after.controls)
  {
    PutWithin(before, NameKey(after.attrs.value).value, after.attrs.value);
  }

  /** An array whose CONTENT holds a Cluster becomes an "ArrayCluster"
      whose `cluster` is the walk of that CONTENT. */
  lemma ArrayOfClusters(controls: Controls, attrs: Attrs, content: Element)
    requires FileArray(controls, attrs, content, "Cluster").Ok?
    ensures Walk(content).Ok?
    ensures Get(FileArray(controls, attrs, content, "Cluster").value.attrs.value, "type") == Some(Str("ArrayCluster"))
    ensures Get(FileArray(controls, attrs, content, "Cluster").value.attrs.value, "cluster") == Some(Members(Walk(content).value))
  {
  }

  /** Any other array has `cluster` set to `None`, unless the element
      declares a `cluster` attribute of its own. */
  lemma {:induction false} ArrayOfScalars(c: Element, controls: Controls, content: Element, elementType: string)
    requires elementType != "Cluster" && !HasKey(c.attrib, "cluster") && DescTip(c).Ok?
    requires FileArray(controls, Describe(WithAttrib([("cluster", Null)], c.attrib), DescTip(c).value), content, elementType).Ok?
    ensures Get(FileArray(controls, Describe(WithAttrib([("cluster", Null)], c.attrib), DescTip(c).value), content, elementType).value.attrs.value, "cluster") == Some(Null)
  {
    var fields := StrFields(c.attrib);
    assert !HasKey(fields, "cluster") by {
      forall i | 0 <= i < |fields| ensures fields[i].0 != "cluster" { assert fields[i].0 == c.attrib[i].0; }
    }
    UpdateOther([("cluster", Null)], fields, "cluster");
    assert Get([("cluster", Null)], "cluster") == Some(Null);
  }

  /** A Cluster's dictionary, as its parts made it, gains `ctrls`: the walk
      of the Cluster's CONTENT; nothing else in it changes. */
  lemma {:induction false} ClusterGainsCtrls(c: Element, controls: Controls, attrs: Attrs)
    requires FileControl(c, controls, attrs).Ok?
    requires Get(attrs, "type") == Some(Str("Cluster"))
    ensures Child(c, "CONTENT", "iterfind").Ok? && Walk(Child(c, "CONTENT", "iterfind").value).Ok?
    ensures Get(FileControl(c, controls, attrs).value.attrs.value, "ctrls")
         == Some(Members(Walk(Child(c, "CONTENT", "iterfind").value).value))
    ensures forall k :: k != "ctrls" ==> Get(FileControl(c, controls, attrs).value.attrs.value, k) == Get(attrs, k)
  {
    ClusterFiled(c, controls, attrs);
  }

  lemma {:induction false} ClusterFiled(c: Element, controls: Controls, attrs: Attrs)
    requires FileControl(c, controls, attrs).Ok?
    requires Get(attrs, "type") == Some(Str("Cluster"))
    ensures Child(c, "CONTENT", "iterfind").Ok? && Walk(Child(c, "CONTENT", "iterfind").value).Ok?
    ensures FileControl(c, controls, attrs).value.attrs
         == Some(Put(attrs, "ctrls", Members(Walk(Child(c, "CONTENT", "iterfind").value).value)))
  {
    assert Store(controls, attrs).Ok?;
  }

  /** Any other control is filed with the dictionary its parts made. */
  lemma PlainControlAttrs(c: Element, controls: Controls, attrs: Attrs)
    requires FileControl(c, controls, attrs).Ok?
    requires Get(attrs, "type") != Some(Str("Cluster"))
    ensures FileControl(c, controls, attrs).value.attrs == Some(attrs)
  {
  }

  /** `iterfind` misses no child with the tag. */
  lemma {:induction false} TaggedComplete(es: seq<Element>, tag: string, x: Element)
    requires x in es && x.tag == tag
    ensures x in Tagged(es, tag)
  {
    if es[0] != x {
      TaggedComplete(es[1..], tag, x);
    }
  }

  /** The Tab Control's `pages` pairs each caption with the walk of the
      PAGE at the same position; `zip` stops at the shorter list. */
  lemma {:induction false} TabPagesZipped(c: Element, controls: Controls)
    requires TabEntry(c, controls).Ok?
    ensures PageMaps(c, 0, []).Ok? && Captions(c).Ok?
    ensures Get(TabEntry(c, controls).value.attrs.value, "pages")
         == Some(Pages(FromPairs(Zip(Captions(c).value, PageMaps(c, 0, []).value))))
    ensures |PageMaps(c, 0, []).value| == |IterFind(c, "PAGE")|
    ensures forall i :: 0 <= i < |IterFind(c, "PAGE")| ==>
      Walk(IterFind(c, "PAGE")[i]) == Ok(PageMaps(c, 0, []).value[i])
  {
    PageMapsWalked(c, 0, []);
  }

  lemma {:induction false} PageMapsWalked(c: Element, from: nat, acc: seq<Controls>)
    requires from <= |IterFind(c, "PAGE")|
    requires PageMaps(c, from, acc).Ok?
    ensures |PageMaps(c, from, acc).value| == |acc| + |IterFind(c, "PAGE")| - from
    ensures PageMaps(c, from, acc).value[..|acc|] == acc
    ensures forall i :: from <= i < |IterFind(c, "PAGE")| ==>
      Walk(IterFind(c, "PAGE")[i]) == Ok(PageMaps(c, from, acc).value[|acc| + i - from])
    decreases |IterFind(c, "PAGE")| - from
  {
    PageMapsExtend(c, from, acc);
    var pageElems := IterFind(c, "PAGE");
    if from < |pageElems| {
      var w := Walk(pageElems[from]);
      var page := w.value;
      assert PageMaps(c, from, acc) == PageMaps(c, from + 1, acc + [page]);
      PageMapsWalked(c, from + 1, acc + [page]);
      PageMapsExtend(c, from + 1, acc + [page]);
      var r := PageMaps(c, from + 1, acc + [page]).value;
      assert r[|acc|] == page by {
        assert r[|acc|] == r[..|acc| + 1][|acc|];
      }
      forall i | from <= i < |pageElems|
        ensures Walk(pageElems[i]) == Ok(r[|acc| + i - from])
      {
        if i == from {
          assert w == Ok(r[|acc|]);
        } else {
          assert |acc + [page]| + i - (from + 1) == |acc| + i - from;
        }
      }
    }
  }

  /** The loop only appends: one page map per remaining PAGE. */
  lemma {:induction false} PageMapsExtend(c: Element, from: nat, acc: seq<Controls>)
    requires from <= |IterFind(c, "PAGE")|
    requires PageMaps(c, from, acc).Ok?
    ensures |PageMaps(c, from, acc).value| == |acc| + |IterFind(c, "PAGE")| - from
    ensures PageMaps(c, from, acc).value[..|acc|] == acc
    decreases |IterFind(c, "PAGE")| - from
  {
    var pageElems := IterFind(c, "PAGE");
    if from < |pageElems| {
      var page := Walk(pageElems[from]).value;
      assert PageMaps(c, from, acc) == PageMaps(c, from + 1, acc + [page]);
      PageMapsExtend(c, from + 1, acc + [page]);
      var r := PageMaps(c, from + 1, acc + [page]).value;
      assert r[..|acc| + 1] == acc + [page];
      assert r[..|acc|] == (acc + [page])[..|acc|];
    }
  }

  /** A caption that occurs once selects its own page. */
  lemma {:induction false} CaptionSelectsPage(captions: seq<Option<string>>, pages: seq<Controls>, i: nat)
    requires i < |captions| && i < |pages|
    requires forall a, b :: 0 <= a < b < |captions| ==> captions[a] != captions[b]
    ensures Get(FromPairs(Zip(captions, pages)), captions[i]) == Some(pages[i])
  {
    var z := Zip(captions, pages);
    assert DistinctKeys(z) by {
      forall a, b | 0 <= a < b < |z| ensures z[a].0 != z[b].0 {
        assert z[a].0 == captions[a] && z[b].0 == captions[b];
      }
    }
    FromPairsLookup(z, i);
  }

  /** The scan finds the first PART of type "Type Def's Control" after
      reading the type of every PART before it; it finds nothing when every
      PART has another type. */
  lemma {:induction false} TypeDefScanNone(c: Element, parts: Element, from: nat)
    requires TypeDefScan(c, parts, from).Ok?
    ensures TypeDefScan(c, parts, from).value.None? <==>
      forall i :: from <= i < |IterFind(parts, "PART")| ==>
        Attrib(IterFind(parts, "PART")[i], "type").Ok? && Attrib(IterFind(parts, "PART")[i], "type").value != "Type Def's Control"
    decreases |IterFind(parts, "PART")| - from
  {
    var ps := IterFind(parts, "PART");
    if from < |ps| {
      var t := Attrib(ps[from], "type");
      assert t.Ok?;
      if t.value != "Type Def's Control" {
        assert TypeDefScan(c, parts, from) == TypeDefScan(c, parts, from + 1);
        TypeDefScanNone(c, parts, from + 1);
      } else {
        assert TypeDefScan(c, parts, from).value.Some?;
      }
    }
  }

  /** What the scan finds is the renamed control of some such PART. */
  lemma {:induction false} TypeDefScanSome(c: Element, parts: Element, from: nat)
    requires TypeDefScan(c, parts, from).Ok?
    ensures TypeDefScan(c, parts, from).value.Some? ==>
      exists j :: from <= j < |IterFind(parts, "PART")| && TypeDefPart(c, parts, j, TypeDefScan(c, parts, from).value.value)
    decreases |IterFind(parts, "PART")| - from
  {
    var ps := IterFind(parts, "PART");
    if from < |ps| {
      if Attrib(ps[from], "type").value != "Type Def's Control" {
        assert TypeDefScan(c, parts, from) == TypeDefScan(c, parts, from + 1);
        TypeDefScanSome(c, parts, from + 1);
      } else {
        assert TypeDefPart(c, parts, from, TypeDefScan(c, parts, from).value.value);
      }
    }
  }

  /** The `j`-th PART is of type "Type Def's Control" and `inner` is the
      dictionary its walk files under `""`, renamed after the definition. */
  ghost predicate TypeDefPart(c: Element, parts: Element, j: nat, inner: Attrs)
    requires j < |IterFind(parts, "PART")|
  {
    var part := IterFind(parts, "PART")[j];
    && Attrib(part, "type") == Ok("Type Def's Control")
    && Walk(part).Ok?
    && Attrib(c, "name").Ok?
    && Get(Walk(part).value, Some("")).Some?
    && Get(inner, "name") == Some(Str(Attrib(c, "name").value))
    && forall k :: k != "name" ==> Get(inner, k) == Get(Get(Walk(part).value, Some("")).value, k)
  }

  /** A Type Definition is filed as the control inside it, renamed after
      the definition and with the definition's description and tip. */
  lemma TypeDefUnwrapped(c: Element, locals: Locals, parts: Element, inner: Attrs)
    requires TypeDefEntry(c, locals).Ok?
    requires Child(c, "PARTS", "iterfind") == Ok(parts)
    requires TypeDefScan(c, parts, 0) == Ok(Some(inner))
    ensures DescTip(c).Ok?
    ensures TypeDefEntry(c, locals).value.attrs == Some(Describe(inner, DescTip(c).value))
  {
  }

  /** Without a "Type Def's Control" part, and with no earlier control
      to leave `attrs` bound, the definition raises `UnboundLocalError`. */
  lemma TypeDefUnbound(c: Element, locals: Locals, parts: Element)
    requires Child(c, "PARTS", "iterfind") == Ok(parts)
    requires TypeDefScan(c, parts, 0) == Ok(None)
    requires DescTip(c).Ok?
    ensures locals.attrs.None? ==> TypeDefEntry(c, locals) == Err(UnboundLocalError("attrs"))
  {
  }

  /** With no such PART and an earlier control's `attrs`, that dictionary
      is described again and filed under its own name. */
  lemma {:induction false} TypeDefWithoutPart(c: Element, locals: Locals, parts: Element)
    requires Child(c, "PARTS", "iterfind") == Ok(parts)
    requires TypeDefScan(c, parts, 0) == Ok(None)
    requires DescTip(c).Ok?
    ensures locals.attrs.Some? && NameKey(locals.attrs.value).Ok? ==>
      && TypeDefEntry(c, locals).Ok?
      && Get(TypeDefEntry(c, locals).value.controls, NameKey(locals.attrs.value).value)
         == Some(Describe(locals.attrs.value, DescTip(c).value))
  {
    if locals.attrs.Some? && NameKey(locals.attrs.value).Ok? {
      var prev := locals.attrs.value;
      var d := Describe(prev, DescTip(c).value);
      DescribeKeepsName(prev, DescTip(c).value);
      assert TypeDefEntry(c, locals) == Store(locals.controls, d);
    }
  }

  /** Describing a dictionary leaves its `name`, and so its key, as it was. */
  lemma DescribeKeepsName(attrs: Attrs, dt: (Field, Field))
    ensures NameKey(Describe(attrs, dt)) == NameKey(attrs)
  {
    assert Get(Describe(attrs, dt), "name") == Get(attrs, "name");
  }

  /** A part's label text is filed under its normalised type, a ring
      text's strings under `items`, and nothing else changes. */
  lemma PartFiled(part: Element, attrs: Attrs)
    requires PartEntry(part, attrs).Ok?
    ensures Attrib(part, "type").Ok?
    ensures LabelText(part).Some? ==>
      Get(PartEntry(part, attrs).value, PartType(Attrib(part, "type").value)) == Some(FromText(LabelText(part).value))
    ensures PartType(Attrib(part, "type").value) == "ringtext" ==>
      && Child(part, "MLABEL", "find").Ok?
      && Child(Child(part, "MLABEL", "find").value, "STRINGS", "iterfind").Ok?
      && Get(PartEntry(part, attrs).value, "items")
         == Some(Items(Texts(IterFind(Child(Child(part, "MLABEL", "find").value, "STRINGS", "iterfind").value, "STRING"))))
    ensures forall k :: k != PartType(Attrib(part, "type").value) && k != "items" ==>
      Get(PartEntry(part, attrs).value, k) == Get(attrs, k)
  {
    PartLabelFiled(part, attrs);
    PartItemsFiled(part, attrs);
    PartOthersKept(part, attrs);
  }

  /** A filed part's label text is stored under the part's type. */
  lemma PartLabelFiled(part: Element, attrs: Attrs)
    requires PartEntry(part, attrs).Ok?
    ensures Attrib(part, "type").Ok?
    ensures LabelText(part).Some? ==>
      Get(PartEntry(part, attrs).value, PartType(Attrib(part, "type").value)) == Some(FromText(LabelText(part).value))
  {
  }

  /** A filed `ringtext` part stores its ring strings as `items`. */
  lemma PartItemsFiled(part: Element, attrs: Attrs)
    requires PartEntry(part, attrs).Ok?
    ensures Attrib(part, "type").Ok?
    ensures PartType(Attrib(part, "type").value) == "ringtext" ==>
      && Child(part, "MLABEL", "find").Ok?
      && Child(Child(part, "MLABEL", "find").value, "STRINGS", "iterfind").Ok?
      && Get(PartEntry(part, attrs).value, "items")
         == Some(Items(Texts(IterFind(Child(Child(part, "MLABEL", "find").value, "STRINGS", "iterfind").value, "STRING"))))
  {
  }

  /** Filing a part changes no key but its type and `items`. */
  lemma PartOthersKept(part: Element, attrs: Attrs)
    requires PartEntry(part, attrs).Ok?
    ensures Attrib(part, "type").Ok?
    ensures forall k :: k != PartType(Attrib(part, "type").value) && k != "items" ==>
      Get(PartEntry(part, attrs).value, k) == Get(attrs, k)
  {
  }

  /** The part type has no spaces and no capital letters. */
  lemma {:induction false} PartTypeNormalised(t: string)
    ensures forall i :: 0 <= i < |PartType(t)| ==> PartType(t)[i] != ' ' && !('A' <= PartType(t)[i] <= 'Z')
  {
    EraseKeepsLower(Lower(t), ' ');
  }

  lemma {:induction false} EraseKeepsLower(s: string, c: char)
    requires forall i :: 0 <= i < |s| ==> !('A' <= s[i] <= 'Z')
    ensures forall i :: 0 <= i < |Erase(s, c)| ==> !('A' <= Erase(s, c)[i] <= 'Z')
  {
    if s != [] {
      EraseKeepsLower(s[1..], c);
      assert Erase(s, c) == (if s[0] == c then [] else [s[0]]) + Erase(s[1..], c);
    }
  }

  // Lemmas the walk's contracts rest on

  lemma {:induction false} KeyedUpdate(d: Controls, e: Controls)
    ensures KeyedByName(d) && KeyedByName(e) ==> KeyedByName(Update(d, e))
  {
    UpdateWithinUnion(d, e);
  }

  lemma {:induction false} KeyedPut(before: Controls, after: Locals)
    requires Stored(before, after)
    ensures KeyedByName(before) ==> KeyedByName(after.controls)
  {
    PutMembers(before, NameKey(after.attrs.value).value, after.attrs.value);
  }

  /** Re-filing the Cluster's dictionary with `ctrls` added under the same
      name replaces the entry just stored. */
  lemma {:induction false} ClusterRestored(controls: Controls, attrs: Attrs, members: Field)
    requires NameKey(attrs).Ok?
    ensures NameKey(Put(attrs, "ctrls", members)) == NameKey(attrs)
    ensures Put(Put(controls, NameKey(attrs).value, attrs), NameKey(attrs).value, Put(attrs, "ctrls", members))
         == Put(controls, NameKey(attrs).value, Put(attrs, "ctrls", members))
  {
    var attrs' := Put(attrs, "ctrls", members);
    assert Get(attrs', "name") == Get(attrs, "name");
    PutTwice(controls, NameKey(attrs).value, attrs, attrs');
  }

  // The walk as the source runs it, filling the dictionaries in loops

  /** `_recurse_ctrls(e)` */
  method RecurseCtrls(e: Element) returns (r: Result<Controls>)
    ensures r == Walk(e)
    decreases e, 3
  {
    var merged := MergeGrouperControls(e);
    if merged.Err? {
      return Err(merged.error);
    }
    var locals := FileControls(e, merged.value);
    if locals.Err? {
      return Err(locals.error);
    }
    r := Ok(locals.value.controls);
  }

  /** The GROUPER loops: `controls.update` with the walk of each PARTS. */
  method MergeGrouperControls(e: Element) returns (r: Result<Controls>)
    ensures r == MergeGroupers(e, 0, [])
    decreases e, 2
  {
    var controls: Controls := [];
    var groupers := IterFind(e, "GROUPER");
    var i := 0;
    while i < |groupers|
      invariant i <= |groupers|
      invariant MergeGroupers(e, i, controls) == MergeGroupers(e, 0, [])
    {
      assert groupers[i] in groupers;
      var merged := MergePartControls(groupers[i], controls);
      if merged.Err? {
        return Err(merged.error);
      }
      controls := merged.value;
      i := i + 1;
    }
    assert i == |groupers|;
    r := Ok(controls);
  }

  /** `for parts in grouper.iterfind("PARTS")`: `controls.update(_recurse_ctrls(parts))`. */
  method MergePartControls(grouper: Element, controls: Controls) returns (r: Result<Controls>)
    ensures r == MergeParts(grouper, 0, controls)
    decreases grouper, 2
  {
    var merged := controls;
    var parts := IterFind(grouper, "PARTS");
    var j := 0;
    while j < |parts|
      invariant j <= |parts|
      invariant MergeParts(grouper, j, merged) == MergeParts(grouper, 0, controls)
    {
      assert parts[j] in parts;
      var w := RecurseCtrls(parts[j]);
      if w.Err? {
        return Err(w.error);
      }
      merged := Update(merged, w.value);
      j := j + 1;
    }
    assert j == |parts|;
    r := Ok(merged);
  }

  /** The CONTROL loop, starting from the merged groupers and no `attrs`. */
  method FileControls(e: Element, merged: Controls) returns (r: Result<Locals>)
    ensures r == ControlLoop(e, 0, Locals(merged, None))
    decreases e, 2
  {
    var ctrls := IterFind(e, "CONTROL");
    var locals := Locals(merged, None);
    var k := 0;
    while k < |ctrls|
      invariant k <= |ctrls|
      invariant ControlLoop(e, k, locals) == ControlLoop(e, 0, Locals(merged, None))
    {
      assert ctrls[k] in ctrls;
      var next := AddControl(ctrls[k], locals);
      if next.Err? {
        return Err(next.error);
      }
      locals := next.value;
      k := k + 1;
    }
    assert k == |ctrls|;
    r := Ok(locals);
  }

  /** One pass of the control loop. */
  method AddControl(c: Element, locals: Locals) returns (r: Result<Locals>)
    ensures r == ControlEntry(c, locals)
    decreases c, 2
  {
    var ty := Attrib(c, "type");
    if ty.Err? {
      return Err(ty.error);
    }
    if ty.value == "Type Definition" {
      r := AddTypeDefinition(c, locals);
    } else if ty.value == "Tab Control" {
      r := AddTabControl(c, locals.controls);
    } else if ty.value == "Array" {
      r := AddArray(c, locals.controls);
    } else {
      r := AddOther(c, locals.controls);
    }
  }

  method AddTypeDefinition(c: Element, locals: Locals) returns (r: Result<Locals>)
    ensures r == TypeDefEntry(c, locals)
    decreases c, 1
  {
    var parts := Child(c, "PARTS", "iterfind");
    if parts.Err? {
      return Err(parts.error);
    }
    var ps := IterFind(parts.value, "PART");
    var attrs := locals.attrs;
    ghost var found: Option<Attrs> := None;
    var j := 0;
    while j < |ps|
      invariant j <= |ps|
      invariant TypeDefScan(c, parts.value, j) == TypeDefScan(c, parts.value, 0)
      invariant attrs == locals.attrs && found.None?
    {
      var t := Attrib(ps[j], "type");
      if t.Err? {
        return Err(t.error);
      }
      if t.value == "Type Def's Control" {
        assert ps[j] in ps;
        var inner := RecurseCtrls(ps[j]);
        if inner.Err? {
          return Err(inner.error);
        }
        var popped := Pop(inner.value, Some(""));
        if popped.None? {
          return Err(KeyError(StrV("")));
        }
        var name := Attrib(c, "name");
        if name.Err? {
          return Err(name.error);
        }
        attrs := Some(Put(popped.value.0, "name", Str(name.value)));
        found := attrs;
        assert TypeDefScan(c, parts.value, 0) == Ok(found);
        break;
      }
      j := j + 1;
    }
    assert TypeDefScan(c, parts.value, 0) == Ok(found);
    var dt := DescTip(c);
    if dt.Err? {
      return Err(dt.error);
    }
    if attrs.None? {
      return Err(UnboundLocalError("attrs"));
    }
    r := Store(locals.controls, Describe(attrs.value, dt.value));
  }

  method AddTabControl(c: Element, controls: Controls) returns (r: Result<Locals>)
    ensures r == TabEntry(c, controls)
    decreases c, 1
  {
    var dt := DescTip(c);
    if dt.Err? {
      return Err(dt.error);
    }
    var attrs := Describe(WithAttrib([], c.attrib), dt.value);
    var pageElems := IterFind(c, "PAGE");
    var pages: seq<Controls> := [];
    var j := 0;
    while j < |pageElems|
      invariant j <= |pageElems|
      invariant PageMaps(c, j, pages) == PageMaps(c, 0, [])
    {
      assert pageElems[j] in pageElems;
      var page := RecurseCtrls(pageElems[j]);
      if page.Err? {
        return Err(page.error);
      }
      pages := pages + [page.value];
      j := j + 1;
    }
    assert j == |pageElems|;
    var priv := Child(c, "PRIV", "find");
    if priv.Err? {
      return Err(priv.error);
    }
    var captionList := Child(priv.value, "PAGE_CAPTIONS", "iterfind");
    if captionList.Err? {
      return Err(captionList.error);
    }
    var captions := CollectTexts(IterFind(captionList.value, "STRING"));
    attrs := Put(attrs, "pages", Pages(FromPairs(Zip(captions, pages))));
    r := Store(controls, attrs);
  }

  method AddArray(c: Element, controls: Controls) returns (r: Result<Locals>)
    ensures r == ArrayEntry(c, controls)
    decreases c, 1
  {
    var dt := DescTip(c);
    if dt.Err? {
      return Err(dt.error);
    }
    var attrs := Describe(WithAttrib([("cluster", Null)], c.attrib), dt.value);
    var content := Child(c, "CONTENT", "find");
    if content.Err? {
      return Err(content.error);
    }
    var elementType := ElementType(content.value);
    if elementType.Err? {
      return Err(elementType.error);
    }
    if elementType.value == "Cluster" {
      var layout := RecurseCtrls(content.value);
      if layout.Err? {
        return Err(layout.error);
      }
      attrs := Put(Put(attrs, "type", Str("ArrayCluster")), "cluster", Members(layout.value));
    }
    r := Store(controls, attrs);
  }

  method AddOther(c: Element, controls: Controls) returns (r: Result<Locals>)
    ensures r == OtherEntry(c, controls)
    decreases c, 1
  {
    var dt := DescTip(c);
    if dt.Err? {
      return Err(dt.error);
    }
    var attrs := Describe(WithAttrib([], c.attrib), dt.value);
    var parts := FirstChild(c, "PARTS");
    if parts.None? {
      return Err(TypeError(NoneV));
    }
    var scanned := ScanParts(parts.value, attrs);
    if scanned.Err? {
      return Err(scanned.error);
    }
    r := FileControlled(c, controls, scanned.value);
  }

  /** `for part in parts`, over every child. */
  method ScanParts(parts: Element, attrs: Attrs) returns (r: Result<Attrs>)
    ensures r == PartScan(parts, 0, attrs)
  {
    var current := attrs;
    var j := 0;
    while j < |parts.children|
      invariant j <= |parts.children|
      invariant PartScan(parts, j, current) == PartScan(parts, 0, attrs)
    {
      var next := AddPart(parts.children[j], current);
      if next.Err? {
        return Err(next.error);
      }
      current := next.value;
      j := j + 1;
    }
    assert j == |parts.children|;
    r := Ok(current);
  }

  /** One part: the label text under the part type, and a ring's items. */
  method AddPart(part: Element, attrs: Attrs) returns (r: Result<Attrs>)
    ensures r == PartEntry(part, attrs)
  {
    var t := Attrib(part, "type");
    if t.Err? {
      return Err(t.error);
    }
    var parttype := PartType(t.value);
    var current := attrs;
    var text := LabelText(part);
    if text.Some? {
      current := Put(current, parttype, FromText(text.value));
    }
    if parttype == "ringtext" {
      var mlabel := Child(part, "MLABEL", "find");
      if mlabel.Err? {
        return Err(mlabel.error);
      }
      var strings := Child(mlabel.value, "STRINGS", "iterfind");
      if strings.Err? {
        return Err(strings.error);
      }
      var items := CollectTexts(IterFind(strings.value, "STRING"));
      current := Put(current, "items", Items(items));
    }
    r := Ok(current);
  }

  /** `controls[attrs["name"]] = attrs`, then the `ctrls` of a Cluster. */
  method FileControlled(c: Element, controls: Controls, attrs: Attrs) returns (r: Result<Locals>)
    ensures r == FileControl(c, controls, attrs)
    decreases c, 0
  {
    var key := NameKey(attrs);
    if key.Err? {
      return Err(key.error);
    }
    var filed := Put(controls, key.value, attrs);
    var ty := Get(attrs, "type");
    if ty.None? {
      return Err(KeyError(StrV("type")));
    }
    if ty.value != Str("Cluster") {
      return Ok(Locals(filed, Some(attrs)));
    }
    var content := Child(c, "CONTENT", "iterfind");
    if content.Err? {
      return Err(content.error);
    }
    var members := RecurseCtrls(content.value);
    if members.Err? {
      return Err(members.error);
    }
    var withCtrls := Put(attrs, "ctrls", Members(members.value));
    r := Ok(Locals(Put(filed, key.value, withCtrls), Some(withCtrls)));
  }

  /** `[s.text for s in es]`, as the loops that gather captions and items. */
  method CollectTexts(es: seq<Element>) returns (texts: seq<Option<string>>)
    ensures texts == Texts(es)
  {
    texts := [];
    var j := 0;
    while j < |es|
      invariant j <= |es|
      invariant |texts| == j && forall i :: 0 <= i < j ==> texts[i] == es[i].text
    {
      texts := texts + [es[j].text];
      j := j + 1;
    }
  }
}
