# autolv control model and VI-strings walker in Dafny

This project models the two pieces of `autolv` that decide what a LabVIEW
front panel looks like from Python:

- **The control value model** (`autolv/datatypes.py`) covers:
  - the control kinds and the `value` setter of each, which checks or
    coerces the incoming value;
  - the read-only descriptive attributes, which can be assigned once;
  - the `DataFlow` direction;
  - the Cluster, an ordered record of named members with positional and
    named reads and writes;
  - the `LVControl_LU` registry behind `make_control`;
  - `valididentifier`.
- **VI-strings repair and extraction** (`autolv/vistrings.py`) covers:
  - the six rewrite passes of `_vistr2xml`, which turn LabVIEW's exported
    pseudo-XML into XML;
  - the recursive walker `_recurse_ctrls`, which turns the element tree into
    one attribute dictionary per control, keyed by the control's name.

Layout (one module per file):

| file | module | what it holds |
|---|---|---|
| `pyvalues.dfy` | `PyValues` | the Python values the setters see, Python exceptions, and a `Result` type for code that raises |
| `dicts.dfy` | `Dicts` | Python's insertion-ordered `dict` as a list of pairs: `d[k] = v`, `update`, `dict(zip(..))`, `pop` |
| `text.dfy` | `Text` | `str.upper`/`str.lower` (ASCII), `replace(" ", "")`, and substring facts |
| `datatypes.dfy` | `Datatypes` | the control state as a datatype and every operation of `datatypes.py` as a function |
| `control_properties.dfy` | `ControlProperties` | what those operations promise |
| `control_objects.dfy` | `ControlObjects` | the objects: class `LVControl`, whose methods update the fields in place and run the Cluster loops, each proved equal to its function |
| `rewrites.dfy` | `Rewrites` | `_removeparttext`, `_addquotes`, `_de_embed_elements`, `_close_elements`, `_styledtext` |
| `entities.dfy` | `Entities` | `ClosedInterval` and `_predefinedentities`: tag spans, substitution lists, sorting, and the splice with a running offset |
| `pipeline.dfy` | `Pipeline` | `_vistr2xml` |
| `walker.dfy` | `Walker` | `_recurse_ctrls` over an element-tree datatype: first as functions, loop by loop, then as methods with the source's loops, each proved equal to its function |

Where the project's documentation and the code differ, the model follows the
code:

- An Enum accepts only an `int` (or a `bool`). The code does not coerce a
  numeric string (`autolv/datatypes.py:361-365`).
- A NotImplControl stores whatever is assigned to `value` and reads it back.
  Before any assignment, reading `value` raises AttributeError.
- autolv/interface.py:18-30 imports TabControl, ArrayCluster and
  AutoLVError from autolv.datatypes, but autolv/datatypes.py defines none
  of them, and it has no WaveformGraph class either, so the model has none
  of them. No code implements a cluster reorder or a retry through a
  reordered layout.
- Equality follows Python's `==` on the stored values: a Numeric holding
  `0.0` equals one holding `0`, and an Array of two or more elements cannot
  be compared, not even with itself, because numpy's elementwise result
  has no truth value.
- `np.array` on a dict makes a 0-d array holding the dict, not an array of
  its keys; the model stores it that way.

## Model

| member | source | states |
|---|---|---|
| Datatypes.WordRun | autolv/datatypes.py:34 | the greedy `[\w]+` run over ASCII word characters: every character in it is a word character, and the character after it is not |
| Datatypes.ValidIdentifierCharacterized | autolv/datatypes.py:32-34 | `valididentifier(s)` holds exactly when `s`, less one final newline, has at least two characters, starts with an ASCII letter, and continues with ASCII word characters only |
| Datatypes.ValidIdentifierExamples | autolv/datatypes.py:32-34 | "x", "1a" and "a b" are rejected; "xy" and "a_1" are accepted |
| Datatypes.ValidIdentifierAcceptsTrailingNewline | autolv/datatypes.py:34 | `$` lets "ab\n" through |
| Datatypes.IsIdentifier | autolv/datatypes.py:33 | the docstring's rule: an ASCII letter followed by any number of word characters and nothing else |
| Datatypes.IsIdentifierFixesBoth | autolv/datatypes.py:33 | the corrected rule accepts "x" and rejects "ab\n" |
| Datatypes.LVControlLUAliases | autolv/datatypes.py:444-463 | "Slide" builds a Numeric; "Waveform Graph" and "XY Graph" build an Array; "Measurement Data" builds a Cluster |
| Datatypes.LVControlLUUnlisted | autolv/datatypes.py:444-463 | "Tab Control" and "ArrayCluster" are not in the registry |
| Datatypes.DataFlowMember | autolv/datatypes.py:22-29 | `DataFlow[name]` exists exactly for CONTROL, IN, INDICATOR, OUT and UNKNOWN; IN is an alias of CONTROL (1), OUT of INDICATOR (2), and UNKNOWN is 3 |
| Datatypes.ValidIdentifier | autolv/datatypes.py:32-34 | an accepted name has at least two characters, an ASCII letter first and a word character second |
| Datatypes.LVControlLU | autolv/datatypes.py:444-463 | the registry never yields NotImplControl |
| Datatypes.ClassFor | autolv/datatypes.py:468-472 | `make_control` falls back to NotImplControl exactly when the declared type is not a string the registry lists |
| Datatypes.DefaultValue | autolv/datatypes.py:97-419 | every class but Cluster has a default `value` that its own setter accepts |
| Datatypes.RingIndex | autolv/datatypes.py:421-425 | `items.index(s)`: for a list or tuple `items`, the first position holding `s`; for a str `items`, the first position where `s` occurs as a substring; ValueError when `s` is absent; AttributeError when there are no `items` or they have no `index` |
| Datatypes.Convert | autolv/datatypes.py:101-425 | every accepted value leaves a control of the same class |
| Datatypes.AssignValue | autolv/datatypes.py:193-201 | `control.value = v` keeps the attributes, the dataflow, the class and the member names; outside a Cluster, a rejected value changes nothing; well-typedness is kept |
| Datatypes.UpdateMembers | autolv/datatypes.py:258-261 | `update` after `n` entries keeps the shape and well-typedness |
| Datatypes.UpdateEntry | autolv/datatypes.py:260-261 | one pass of `update`: an unhashable name raises TypeError, an unknown name raises KeyError, a known one assigns that member; the shape is kept |
| Datatypes.AssignMember | autolv/datatypes.py:195-201 | member `i` becomes `m`, the result of its own setter, under its own name; every other member of the cluster written so far is unchanged; the setter's exception is passed on; well-typedness is kept |
| Datatypes.AssignPositional | autolv/datatypes.py:200-201 | the `zip` loop keeps the shape and well-typedness |
| Datatypes.ReadValue | autolv/datatypes.py:275-281 | a Cluster that reads without raising reads as a list with one value per member |
| Datatypes.ReadMembers | autolv/datatypes.py:278-281 | a read of `n` members that succeeds yields `n` values |
| Datatypes.ReadMembersFacts | autolv/datatypes.py:275-281 | the read succeeds exactly when every member read does, and then lists their values in order; otherwise it raises one member's exception |
| Datatypes.ReadMembersStep | autolv/datatypes.py:279-280 | reading one more member appends its value |
| Datatypes.Lookup | autolv/datatypes.py:184 | `_ctrls[key]` succeeds exactly for a hashable key that is present, and returns that member; a missing key raises KeyError |
| Datatypes.IndexOfMember | autolv/datatypes.py:223-228 | `index(name)` is the first position with that name; ValueError exactly when no member has it |
| Datatypes.ContainsMember | autolv/datatypes.py:243-244 | `name in c` is answered for every hashable name, and is true exactly when some member has that name |
| Datatypes.GetItem | autolv/datatypes.py:181-184 | a member returned is one of the cluster's; an int out of range raises IndexError; any other key succeeds exactly when it is hashable and names a member |
| Datatypes.Truth | autolv/datatypes.py:255-256 | `bool(c)` exactly when the cluster has a member |
| Datatypes.IORefNumDisplay | autolv/datatypes.py:391-395 | `str()` shows the first component of the stored tuple; IndexError for an empty tuple |
| Datatypes.RingDisplay | autolv/datatypes.py:427-431 | `str()` shows `items[value]` with Python indexing: from the end for a negative `value`, one character for a str `items`, IndexError outside the range; TypeError for a non-int `value`; AttributeError without `items` |
| Datatypes.SetAttribute | autolv/datatypes.py:64-67 | a read-only attribute that is already present raises and changes nothing; the dataflow and class are kept |
| Datatypes.SetDataflow | autolv/datatypes.py:76-83 | succeeds exactly when the upper-cased name is a `DataFlow` member, and then sets that member; otherwise it raises KeyError with the upper-cased name |
| Datatypes.Equal | autolv/datatypes.py:85-91 | equal controls, or controls whose comparison raises, have the same class; outside a Cluster, equal controls have the same dataflow and attribute names, and their attribute values are `==` in Python's sense |
| Datatypes.FieldsEqual | autolv/datatypes.py:85-91 | the comparison raises only when the dataflow and the attributes set before `value` agree and the test of the stored values raises; it holds only when dataflow, attribute names and every attribute agree |
| Datatypes.TestTruth | autolv/datatypes.py:88-91 | a test without arrays is Python's `==`; with an array it raises exactly when the broadcast elementwise result has more than one element, and it holds only for two one-element arrays whose elements are `==` |
| Datatypes.MembersEqual | autolv/datatypes.py:249-253 | the zip loop's tests pass only when the paired member names are `==` |
| Datatypes.EqualControls | autolv/datatypes.py:246-253 | corrected equality: it implies the source's equality and also needs equal member counts |
| Datatypes.ToArray | autolv/datatypes.py:144-149 | `np.array` gives the array of a tuple's, list's or array's elements, a 0-d array holding a dict, and a 0-d array unchanged |
| Datatypes.NonStrKey | autolv/datatypes.py:466 | `**attrs` needs string keys: None exactly when all keys are strings |
| Datatypes.GetOr | autolv/datatypes.py:99 | `kwargs.pop(key, default)`: the value given under `key`, or the default when there is none |
| Datatypes.InitAttributes | autolv/datatypes.py:46-52 | `name` is required (KeyError otherwise); exactly the read-only attributes given are copied, and `type` is left out when popped |
| Datatypes.Construct | autolv/datatypes.py:46-54 | the built control has the chosen class, dataflow UNKNOWN and a `name`; without `name` it raises KeyError; a NotImplControl with a name always builds; the result is well-typed |
| Datatypes.ConstructCluster | autolv/datatypes.py:175-179 | a Cluster with the given attributes and members built from `ctrls`, well-typed |
| Datatypes.ConstructValue | autolv/datatypes.py:416-419 | the given `value` or the default passes through the setter; a Ring also stores `items`; a NotImplControl starts without a value |
| Datatypes.MakeMembers | autolv/datatypes.py:177-179 | the members built have distinct hashable names and are all well-typed |
| Datatypes.MakeControl | autolv/datatypes.py:466-473 | the built control has no `type` attribute, has a `name` and dataflow UNKNOWN, and has the class the registry gives for the declared type |
| Datatypes.ReplaceKeepsWellTyped | autolv/datatypes.py:201 | replacing one member with a well-typed control keeps the cluster well-typed |
| Datatypes.PutKeepsWellTyped | autolv/datatypes.py:179 | storing a well-typed member keeps every member well-typed |
| ControlProperties.StrictSetters | autolv/datatypes.py:101-365 | Numeric accepts exactly numbers; Boolean, bools; String, strings; Enum, ints; TimeStamp, datetimes; Array, non-string values with `__iter__`; Path, str or path; IORefNum, str or tuple; a rejected value raises TypeError (or, for a Ring, its lookup error) and leaves the control as it was |
| ControlProperties.BoolIsNumberAndInt | autolv/datatypes.py:103 | a `bool` passes the Numeric and Enum checks |
| ControlProperties.SetThenRead | autolv/datatypes.py:101-105 | an accepted value reads back as given |
| ControlProperties.ArraySetThenRead | autolv/datatypes.py:144-149 | an Array reads back the elements of the tuple, list or array it is given, and a dict it is given as the one object of a 0-d array |
| ControlProperties.PathSetThenRead | autolv/datatypes.py:311-320 | a Path reads back as the text of the str or path it was given |
| ControlProperties.IORefNumSetThenDisplay | autolv/datatypes.py:383-395 | a bare string `s` is stored as `(s, 0)` and shows `s`; a tuple is stored as given and shows its first component |
| ControlProperties.RingSetters | autolv/datatypes.py:421-431 | without `items` a string raises AttributeError; any other value is stored as given; for a list or tuple `items`, a string among them becomes its first position and shows as that string, and a string not among them raises ValueError and changes nothing |
| ControlProperties.RingStringItems | autolv/datatypes.py:421-431 | for a str `items`, a string found in it becomes the position of its first occurrence and then shows the character there; a string not found raises ValueError and changes nothing |
| ControlProperties.RingShowsPosition | autolv/datatypes.py:421-431 | an int is stored as given and shows `items[i]`, counting from the end for a negative `i`; IndexError outside the range |
| ControlProperties.WriteOnce | autolv/datatypes.py:64-67 | a read-only attribute not yet present can be assigned; assigning it again raises and keeps the first value |
| ControlProperties.OtherAttributesRewritable | autolv/datatypes.py:64-67 | any attribute outside READONLY_ATTRIBUTES can be reassigned |
| ControlProperties.FreshControl | autolv/datatypes.py:54 | every control `make_control` builds has dataflow UNKNOWN (3), and its `name` can no longer be assigned |
| ControlProperties.UpperIdempotent | autolv/datatypes.py:83 | upper-casing twice is upper-casing once |
| ControlProperties.SetDataflowIgnoresCase | autolv/datatypes.py:83 | `set_dataflow` gives the same result for the lower-cased and upper-cased spellings |
| ControlProperties.SetDataflowNames | autolv/datatypes.py:22-29 | CONTROL and IN select 1; INDICATOR and OUT select 2; UNKNOWN selects 3; any other name raises KeyError |
| ControlProperties.DataflowControl | autolv/datatypes.py:81 | "control" selects CONTROL |
| ControlProperties.DataflowIn | autolv/datatypes.py:81 | "in" selects CONTROL |
| ControlProperties.DataflowIndicator | autolv/datatypes.py:81 | "indicator" selects INDICATOR |
| ControlProperties.DataflowOut | autolv/datatypes.py:81 | "out" selects INDICATOR |
| ControlProperties.UnknownTypeBuildsNotImpl | autolv/datatypes.py:469-473 | a type the registry does not list still builds: a NotImplControl with no value, whose read raises AttributeError |
| ControlProperties.Defaults | autolv/datatypes.py:97-99 | without `value`, every constructor but Cluster's and NotImplControl's succeeds and reads back its default: 0.0, False, "", 0, the 1904 epoch, an empty array, `("", 0)`, the empty path, item 0 |
| ControlProperties.RingStringInitialValueFails | autolv/datatypes.py:416-419 | a Ring built with a string `value` raises AttributeError, because `items` is stored only after the value |
| ControlProperties.ClusterValueInOrder | autolv/datatypes.py:275-281 | a cluster's value is read exactly when every member's value is, and lists them in member order |
| ControlProperties.GetItemByPosition | autolv/datatypes.py:181-184 | `c[i]` is the i-th member, counting from the end for negative `i`; IndexError outside the range |
| ControlProperties.GetItemByName | autolv/datatypes.py:181-184 | `c[name]` is the member of that name |
| ControlProperties.IndexThenGetItem | autolv/datatypes.py:223-228 | `c[c.index(name)]` is `c[name]` |
| ControlProperties.ContainsIffIndex | autolv/datatypes.py:243-244 | `name in c` exactly when `c.index(name)` succeeds |
| ControlProperties.TruthIffFirstMember | autolv/datatypes.py:255-256 | `bool(c)` exactly when `c[0]` exists, and exactly when the value list is non-empty |
| ControlProperties.UpdateLeavesOthers | autolv/datatypes.py:258-261 | `update` leaves every member it does not name unchanged, even when it raises |
| ControlProperties.UpdateSetsNamed | autolv/datatypes.py:258-261 | after an `update` that did not raise, each named member holds the setter's result for its value |
| ControlProperties.UpdateRaisesIff | autolv/datatypes.py:258-261 | `update` raises exactly when some name is unhashable or unknown, or some member's setter rejects its value |
| ControlProperties.UpdateAccepted | autolv/datatypes.py:258-261 | an `update` that did not raise had every entry hashable, naming a member, and accepted by that member's setter |
| ControlProperties.UpdateAllAccepted | autolv/datatypes.py:258-261 | an `update` whose every entry is hashable, names a member and is accepted does not raise |
| ControlProperties.UpdateStepRaises | autolv/datatypes.py:260-261 | one more entry completes without raising exactly when all earlier ones did and this one is accepted |
| ControlProperties.PositionalLeavesRest | autolv/datatypes.py:200-201 | a sequence assignment leaves the members past its pairs unchanged |
| ControlProperties.PositionalSets | autolv/datatypes.py:200-201 | after a sequence assignment that did not raise, member `i` holds the setter's result for `xs[i]` |
| ControlProperties.PositionalRaisesIff | autolv/datatypes.py:200-201 | a sequence assignment raises exactly when some member rejects the element paired with it |
| ControlProperties.PositionalAccepted | autolv/datatypes.py:200-201 | a sequence assignment that did not raise had every paired element accepted by its member |
| ControlProperties.PositionalAllAccept | autolv/datatypes.py:200-201 | a sequence assignment whose every paired element is accepted does not raise |
| ControlProperties.ClusterAssignment | autolv/datatypes.py:196-201 | a dict is assigned with `update`; any other iterable is paired up to the shorter length; a non-iterable raises TypeError and changes nothing |
| ControlProperties.ValueMemberAssigned | autolv/datatypes.py:193-195 | on a cluster with a member named "value", `c.value = v` writes that member: it gets its setter's result, the setter's exception is passed on, and the other members are unchanged |
| ControlProperties.ClusterWriteByName | autolv/datatypes.py:196-198 | writing `{"x": x, "y": y}` to a Numeric `x` and Boolean `y` cluster reads back `[x, y]` |
| ControlProperties.ReadPair | autolv/datatypes.py:276-281 | a two-member cluster reads as the list of its two values |
| ControlProperties.EqualReflexive | autolv/datatypes.py:85-91 | a control equals itself when every stored value it compares is no array or a one-element array |
| ControlProperties.ArrayComparedWithItself | autolv/datatypes.py:85-91 | `a == a` on an Array raises ValueError for two or more elements, is False for none and True for one |
| ControlProperties.NumbersCompareByValue | autolv/datatypes.py:85-91 | two Numerics alike but for their numbers are equal exactly when the numbers are, whatever their types: `0.0` equals `0` and `True` equals `1` |
| PyValues.ValueEqReflexive | autolv/datatypes.py:90 | every value is `==` to itself |
| ControlProperties.EmptyClusterEqualsAny | autolv/datatypes.py:250 | an empty cluster equals every cluster |
| ControlProperties.EmptyClusterEqualsNonEmpty | autolv/datatypes.py:250 | an empty cluster equals a one-member cluster |
| ControlProperties.EqualControlsCorrected | autolv/datatypes.py:246-253 | the corrected comparison tells clusters of different sizes apart and is still reflexive on every cluster that equals itself |
| ControlObjects.LVControl.constructor | autolv/datatypes.py:46-54 | the new object is the given control |
| ControlObjects.LVControl.Make | autolv/datatypes.py:466-473 | a fresh object in the state `make_control` computes, or the exception it raises |
| ControlObjects.LVControl.Build | autolv/datatypes.py:466-473 | the control built is the one `make_control` computes |
| ControlObjects.LVControl.BuildCluster | autolv/datatypes.py:175-179 | `Cluster.__init__` builds the members of `ctrls` as the function does |
| ControlObjects.LVControl.BuildMembers | autolv/datatypes.py:177-179 | the loop filling `_ctrls` builds the members the function computes, and stops at the first exception |
| ControlObjects.LVControl.SetValue | autolv/datatypes.py:193-201 | the object's new state and the exception are those of `AssignValue` on its old state |
| ControlObjects.LVControl.Update | autolv/datatypes.py:258-261 | the loop over the dict leaves the state and exception `UpdateMembers` computes |
| ControlObjects.LVControl.AssignSequence | autolv/datatypes.py:200-201 | the `zip` loop leaves the state and exception `AssignPositional` computes, up to the shorter length |
| ControlObjects.LVControl.SetAttribute | autolv/datatypes.py:64-67 | the new state and exception are those of `SetAttribute` |
| ControlObjects.LVControl.SetDataflow | autolv/datatypes.py:76-83 | sets the dataflow `set_dataflow` selects; on an unknown name raises KeyError and changes nothing |
| ControlObjects.LVControl.GetValue | autolv/datatypes.py:275-281 | returns the value `ReadValue` reads, or its exception |
| ControlObjects.LVControl.ReadCluster | autolv/datatypes.py:278-281 | the loop of the `value` property collects the members' values in order |
| ControlObjects.LVControl.Index | autolv/datatypes.py:223-228 | the enumerate loop returns the position `IndexOfMember` gives, or ValueError |
| ControlObjects.LVControl.Equals | autolv/datatypes.py:246-253 | the loop collecting tests gives the source's equality |
| ControlObjects.UpdateMembersStops | autolv/datatypes.py:260-261 | once a member write raises, later entries change nothing |
| ControlObjects.AssignPositionalStops | autolv/datatypes.py:200-201 | once a member write raises, later pairs change nothing |
| ControlObjects.MembersEqualStops | autolv/datatypes.py:249-253 | once a member comparison raises, comparing more members raises that exception |
| ControlObjects.ReadMembersStops | autolv/datatypes.py:279-280 | once a member read raises, the cluster read raises that exception |
| ControlObjects.MakeMembersStops | autolv/datatypes.py:178-179 | once building a member raises, `Cluster.__init__` raises that exception |
| Rewrites.FindInLine | autolv/vistrings.py:108 | the first occurrence of a literal that `.*?` can reach without crossing a newline |
| Text.FindLit | autolv/vistrings.py:108-111 | the first occurrence of a literal at or after a position, with DOTALL |
| Text.FindLitFirst | autolv/vistrings.py:108-111 | an occurrence with none before it, from the position on, is the one found |
| Rewrites.TextPart | autolv/vistrings.py:108 | a Text part's match ends with `</PART>` after its first group |
| Rewrites.RemovePartText | autolv/vistrings.py:105-113 | the pass never lengthens the text |
| Rewrites.RemovePartTextBody | autolv/vistrings.py:105-113 | a `<PART ` whose first `type="Text">` closes the first group, followed by a body with no `</PART>`, loses that body and keeps both tags; the rest is rewritten the same way |
| Rewrites.RemovePartTextDeletesOnly | autolv/vistrings.py:105-113 | removing Text-part bodies only deletes characters |
| Rewrites.RemovePartTextUntouched | autolv/vistrings.py:105-113 | text without `<PART ` is unchanged |
| Rewrites.ValueEnd | autolv/vistrings.py:15 | the first white space or `>` at or after a position |
| Rewrites.Quote | autolv/vistrings.py:7-10 | `="attr"end`: the attribute between two quotes, then its terminator |
| Rewrites.AddQuotes | autolv/vistrings.py:13-16 | the pass never shortens the text |
| Rewrites.AddQuotesValue | autolv/vistrings.py:13-16 | `=v` followed by its terminator (white space or `>`), where `v` holds no terminator and does not start with `"`, becomes `="v"` and the terminator; the rest is rewritten the same way |
| Rewrites.AddQuotesInsertsOnlyQuotes | autolv/vistrings.py:7-16 | `_addquotes` only inserts `"` characters |
| Rewrites.AddQuotesUntouched | autolv/vistrings.py:13-16 | text in which every `=` is followed by `"` is unchanged |
| Rewrites.NumberTag | autolv/vistrings.py:46 | `<<([0-9]+)>>` at the start: a run of digits between `<<` and `>>` |
| Rewrites.DeEmbedElementsLoop | autolv/vistrings.py:38-47 | the loop over "B" and "append" and the number pass compute `_de_embed_elements` |
| Rewrites.DeEmbedElementDeletesOnly | autolv/vistrings.py:45 | de-embedding a tag only deletes its extra angle brackets |
| Rewrites.DeEmbedElement | autolv/vistrings.py:45 | one element's pass never lengthens the text |
| Rewrites.DeEmbedOpen | autolv/vistrings.py:45 | `<<e>>` becomes `<e>`; the rest is rewritten the same way |
| Rewrites.DeEmbedClose | autolv/vistrings.py:45 | `<</e>>` becomes `</e>`; the rest is rewritten the same way |
| Rewrites.DeEmbedNumbers | autolv/vistrings.py:46 | the number pass keeps the length |
| Rewrites.DeEmbedNumber | autolv/vistrings.py:46 | `<<d>>` for a run of digits `d` becomes `__d__`; the rest is rewritten the same way |
| Rewrites.DeEmbedElements | autolv/vistrings.py:38-47 | `_de_embed_elements` never lengthens the text |
| Rewrites.DeEmbedUntouched | autolv/vistrings.py:38-47 | text without `<<` is unchanged |
| Rewrites.DeEmbedBoldExample | autolv/vistrings.py:45 | `<</B>>` becomes `</B>` |
| Rewrites.DeEmbedNumberExample | autolv/vistrings.py:46 | `<<12>>` becomes `__12__` |
| Rewrites.OpenTagEnd | autolv/vistrings.py:33 | `<e.*?>` ends at the first `>` after `<e` on the same line |
| Rewrites.CloseElementsLoop | autolv/vistrings.py:19-35 | the loop over the eight element names, in order, computes `_close_elements` |
| Rewrites.CloseElementInsertsOnly | autolv/vistrings.py:32-34 | closing an element only inserts copies of `</e>` |
| Rewrites.CloseElement | autolv/vistrings.py:32-34 | one element's pass never shortens the text |
| Rewrites.CloseElementTag | autolv/vistrings.py:32-34 | `<e` followed by anything without `>` or a newline, then `>`, gains `</e>` right after; the rest is rewritten the same way |
| Rewrites.CloseElements | autolv/vistrings.py:19-35 | `_close_elements` never shortens the text |
| Rewrites.CloseElementUntouched | autolv/vistrings.py:32-34 | text without `<e` is unchanged |
| Rewrites.CloseThroughUntouched | autolv/vistrings.py:22-35 | text without `<` is unchanged by the whole loop |
| Rewrites.CloseElementExample | autolv/vistrings.py:33 | `<LF>` becomes `<LF></LF>` |
| Rewrites.StyledTextUntouched | autolv/vistrings.py:99-102 | text without `<B>` is unchanged |
| Rewrites.StyledText | autolv/vistrings.py:99-102 | the pass never shortens the text |
| Rewrites.StyledTextSpan | autolv/vistrings.py:101 | a bold span on one line becomes a CDATA section holding its text |
| Entities.EscapeLtInverse | autolv/vistrings.py:80 | in text without `&`, reading `&lt;` back as `<<` recovers the input |
| Entities.EscapeGtInverse | autolv/vistrings.py:81 | in text without `&`, reading `&gt;` back as `>>` recovers the input |
| Entities.EscapeGtTriple | autolv/vistrings.py:81 | `>>>` becomes `>&gt;` |
| Entities.EscapeLt | autolv/vistrings.py:80 | no `<<` remains in the output; a leading `<<` becomes a leading `&`, and any other first character is kept |
| Entities.EscapeGt | autolv/vistrings.py:81 | the `>>` pass never shortens the text |
| Entities.EscapeGtRun | autolv/vistrings.py:81 | in a run of two or more `>`, the last two become `&gt;` and the earlier ones are kept |
| Entities.IntervalOf | autolv/vistrings.py:50-58 | `ClosedInterval(span)` contains `v` exactly when `start <= v < stop` |
| Entities.LazyTail | autolv/vistrings.py:84 | where `.*?[^>]>` ends: at a `>` |
| Entities.TagAt | autolv/vistrings.py:84 | a tag match starts at `<`, ends with `>` and spans at least four characters |
| Entities.TagMatches | autolv/vistrings.py:84-85 | every span `finditer` reports is a tag match inside the text |
| Entities.Intervals | autolv/vistrings.py:83-85 | one interval per span, in order |
| Entities.Matches | autolv/vistrings.py:88 | each reported start is a match of the entity's pattern, and the starts are at least one match width apart |
| Entities.Outside | autolv/vistrings.py:88-91 | keeps every start that lies in no tag span and only those, in order, without overlap |
| Entities.OutsideLoop | autolv/vistrings.py:88-91 | the loop over one entity's matches computes the kept substitutions |
| Entities.OutsideThrough | autolv/vistrings.py:87-91 | over the first `n` entities, every substitution kept is a match outside every tag span, and every such match is kept |
| Entities.MatchesComplete | autolv/vistrings.py:88 | `finditer` reports every match, except a `""` that the match one to its left already covers |
| Entities.Substitutions | autolv/vistrings.py:83-91 | every substitution is a match outside every tag span; every `&` match and every `""` match outside them is substituted |
| Entities.AmpSubstituted | autolv/vistrings.py:88-93 | every `&` not followed by `lt;` or `gt;` and outside every tag span is substituted, and appears in the sorted list |
| Entities.QuotSubstituted | autolv/vistrings.py:88-91 | every `""` outside every tag span is substituted, unless the match one to its left covers it |
| Entities.SortByLoc | autolv/vistrings.py:93 | `sorted` yields an ascending permutation |
| Entities.SubstitutionsPlaced | autolv/vistrings.py:86-91 | every substitution sits on a match of its pattern, starts outside every tag span, and no two overlap or share a start |
| Entities.SortedSubstitutions | autolv/vistrings.py:93 | the sorted list is a permutation of the substitutions, ascending and placed inside the text |
| Entities.RenderKeeps | autolv/vistrings.py:92-95 | a character no substitution covers is kept, shifted right by four for each substitution before it |
| Entities.RenderReplaces | autolv/vistrings.py:94 | each substitution point shows its entity reference, shifted by four per earlier substitution |
| Entities.Render | autolv/vistrings.py:92-95 | the rendered text is four characters longer per substitution |
| Entities.Splice | autolv/vistrings.py:92-95 | the splice loop with the running offset `x` computes the rendered text |
| Entities.PredefinedEntitiesLoop | autolv/vistrings.py:77-96 | the loops of `_predefinedentities` compute its function |
| Entities.EscapeLtUntouched | autolv/vistrings.py:80 | text without `<` is unchanged by the `<<` pass |
| Entities.EscapeGtUntouched | autolv/vistrings.py:81 | text without `>` is unchanged by the `>>` pass |
| Entities.PredefinedEntitiesUntouched | autolv/vistrings.py:77-96 | text with none of `<`, `>`, `&`, `"` is unchanged |
| Entities.PredefinedEntities | autolv/vistrings.py:77-96 | the output is as long as the bracket-escaped text plus four per substitution |
| Entities.TagCharactersPreserved | autolv/vistrings.py:83-91 | every character inside a tag span is kept, shifted by the substitutions before it |
| Entities.SubstitutionsShown | autolv/vistrings.py:92-95 | each substitution shows its reference in the output |
| Pipeline.Repair | autolv/vistrings.py:116-124 | the six passes, in their order, compute `_vistr2xml` |
| Pipeline.PlainTextUnchanged | autolv/vistrings.py:116-124 | text with no `<`, `>`, `=`, `&` or `"` comes out unchanged |
| Walker.FirstOf | autolv/vistrings.py:139 | `find` returns the first element with the tag, or None exactly when no element has it |
| Walker.FirstChild | autolv/vistrings.py:139 | `e.find(tag)` is the first child with that tag, or None exactly when no child has it |
| Walker.IterFind | autolv/vistrings.py:129 | `iterfind` yields only children with the tag |
| Walker.TaggedComplete | autolv/vistrings.py:129 | `iterfind` misses no child with the tag |
| Walker.Child | autolv/vistrings.py:139 | `.find(tag).attr` raises AttributeError exactly when no child has the tag |
| Walker.Attrib | autolv/vistrings.py:133 | `attrib[name]` succeeds exactly for a present attribute and returns its value; otherwise KeyError |
| Walker.Texts | autolv/vistrings.py:156 | the `.text` of each element, in order |
| Walker.StrFields | autolv/vistrings.py:145 | the attributes as string fields, in document order |
| Walker.DescTip | autolv/vistrings.py:139-140 | DESC and TIP are read exactly when both are present |
| Walker.Describe | autolv/vistrings.py:141 | sets `description` and `tip` and changes no other key |
| Walker.Store | autolv/vistrings.py:142 | `controls[attrs["name"]] = attrs` succeeds exactly when the name is a usable key, and files `attrs` under it |
| Walker.AsKey | autolv/vistrings.py:142 | `attrs["name"]` as a key: KeyError without a name; succeeds exactly for a string or None, returning it; TypeError for any other field |
| Walker.Walk | autolv/vistrings.py:127-195 | every dictionary in the result is filed under its own `name` |
| Walker.MergeGroupers | autolv/vistrings.py:129-131 | merging GROUPERs keeps every dictionary filed under its own name |
| Walker.MergeParts | autolv/vistrings.py:130-131 | the same for the PARTS of one grouper |
| Walker.ControlLoop | autolv/vistrings.py:132-194 | the control loop keeps every dictionary filed under its own name |
| Walker.ControlEntry | autolv/vistrings.py:132-194 | one control stores its dictionary under its name and keeps the others filed under theirs |
| Walker.TypeDefEntry | autolv/vistrings.py:133-142 | a Type Definition stores its dictionary under its name |
| Walker.TabEntry | autolv/vistrings.py:143-158 | a Tab Control stores its dictionary under its name |
| Walker.ArrayEntry | autolv/vistrings.py:159-170 | an Array stores its dictionary under its name |
| Walker.FileArray | autolv/vistrings.py:166-170 | the same, with or without the cluster layout |
| Walker.OtherEntry | autolv/vistrings.py:171-194 | any other control stores its dictionary under its name |
| Walker.FileControl | autolv/vistrings.py:190-194 | the same, after a Cluster's `ctrls` |
| Walker.GrouperControlsMerged | autolv/vistrings.py:129-131 | every name found under a GROUPER's PARTS is a name of the result |
| Walker.MergeGroupersKeeps | autolv/vistrings.py:131 | `controls.update` keeps every name already there |
| Walker.ControlLoopWithin | autolv/vistrings.py:132-194 | the control loop removes no name |
| Walker.ArrayOfClusters | autolv/vistrings.py:167-169 | an Array of Clusters is retyped "ArrayCluster", and its `cluster` is the walk of its CONTENT |
| Walker.ArrayOfScalars | autolv/vistrings.py:160-162 | any other Array keeps `cluster` None unless the element declares a `cluster` attribute of its own |
| Walker.ElementType | autolv/vistrings.py:166-167 | the type read is the `type` of a CONTROL child; AttributeError when there is no CONTROL child; any failure is that AttributeError or a KeyError for `type` |
| Walker.ClusterGainsCtrls | autolv/vistrings.py:191-194 | a Cluster's dictionary gains `ctrls`, the walk of its CONTENT; nothing else in it changes |
| Walker.ClusterFiled | autolv/vistrings.py:190-194 | a Cluster's dictionary is filed with `ctrls` set to the walk of its CONTENT |
| Walker.PlainControlAttrs | autolv/vistrings.py:172-190 | any other control is filed with the dictionary its parts made |
| Walker.TabPagesZipped | autolv/vistrings.py:149-157 | `pages` is `dict(zip(captions, page maps))`, with one page map per PAGE, each the walk of that PAGE |
| Walker.PageMapsWalked | autolv/vistrings.py:150-151 | the page loop appends the walk of each PAGE in order |
| Walker.PageMapsExtend | autolv/vistrings.py:150-151 | the page loop only appends, one map per remaining PAGE |
| Walker.CaptionSelectsPage | autolv/vistrings.py:157 | with distinct captions, each caption selects its own page |
| Walker.Captions | autolv/vistrings.py:152-156 | AttributeError without PRIV; otherwise the `.text` of each STRING under PRIV/PAGE_CAPTIONS, in order |
| Walker.TypeDefScanNone | autolv/vistrings.py:134-138 | the scan finds nothing exactly when every PART has a readable type other than "Type Def's Control" |
| Walker.TypeDefScanSome | autolv/vistrings.py:134-138 | what it finds is the control a "Type Def's Control" PART files under `""`, renamed after the definition |
| Walker.TypeDefUnwrapped | autolv/vistrings.py:139-142 | a Type Definition is filed as that inner control with the definition's description and tip |
| Walker.TypeDefWithoutPart | autolv/vistrings.py:134-142 | with no such PART, the previous control's `attrs` is reused and re-described, or UnboundLocalError is raised when there is none |
| Walker.TypeDefUnbound | autolv/vistrings.py:134-141 | with no such PART and no earlier control, `attrs` is unbound and UnboundLocalError is raised |
| Walker.PartFiled | autolv/vistrings.py:177-189 | a part's label text is filed under its normalised type; a ring's `items` are its STRING texts; no other key changes |
| Walker.PartTypeNormalised | autolv/vistrings.py:178 | the normalised part type has no spaces and no upper-case ASCII letters |
| Walker.PartScan | autolv/vistrings.py:177-189 | the PARTS loop removes no key |
| Walker.PartEntry | autolv/vistrings.py:178-189 | one part removes no key; KeyError without a `type`; any other failure comes from a ring part |
| Walker.LabelText | autolv/vistrings.py:180 | the text read is that of an STEXT under a LABEL of the part; nothing is read without a LABEL |
| Walker.RecurseCtrls | autolv/vistrings.py:127-195 | the loops compute the walk, or raise its exception |
| Walker.MergeGrouperControls | autolv/vistrings.py:129-131 | the GROUPER loop computes the merged dictionary |
| Walker.MergePartControls | autolv/vistrings.py:130-131 | the PARTS loop of one grouper computes the merge |
| Walker.FileControls | autolv/vistrings.py:132-194 | the CONTROL loop computes the locals the function gives |
| Walker.AddControl | autolv/vistrings.py:133-194 | the dispatch on the control's type computes one pass |
| Walker.AddTypeDefinition | autolv/vistrings.py:133-142 | the PART loop with `break` computes the Type Definition pass |
| Walker.AddTabControl | autolv/vistrings.py:143-158 | the page and caption loops compute the Tab Control pass |
| Walker.AddArray | autolv/vistrings.py:159-170 | computes the Array pass |
| Walker.AddOther | autolv/vistrings.py:171-194 | computes the pass for any other control |
| Walker.ScanParts | autolv/vistrings.py:177-189 | the loop over PARTS computes the attribute dictionary |
| Walker.AddPart | autolv/vistrings.py:178-189 | one part: label text, then a ring's items |
| Walker.FileControlled | autolv/vistrings.py:190-194 | files the control, then a Cluster's `ctrls` |
| Walker.CollectTexts | autolv/vistrings.py:186-188 | the loop collects the text of each STRING in order |

## Left out

- I/O, COM and the LabVIEW session are not modelled. autolv/interface.py is not part of this model.
- `parse_vistrings` (autolv/vistrings.py:198-203) is not modelled. It hands the repaired text to `xml.etree`, a foreign library. The walker works on an element-tree datatype instead.
- TabControl, ArrayCluster and AutoLVError are not modelled: autolv/interface.py:18-30 imports them from autolv.datatypes, but autolv/datatypes.py defines none of them. No code implements a cluster reorder.
- `Cluster.__setitem__` (autolv/datatypes.py:186-191) is not modelled: it calls `self._setfp`, which is not defined, so it cannot complete.
- numpy is modelled only as far as `np.array` and elementwise `==` go. An Array is one-dimensional: the elements of a nested list are its elements, not further dimensions, and there is no dtype, so `np.array([1, "a"])` keeps `1` as a number.
- TestTruth: follows numpy before versions 1.25 and 2.2. Shapes that do not broadcast compare False, and an empty elementwise result is False. Later numpy raises ValueError in both cases.
- ValueEq: an ndarray inside a list, a tuple or an attribute other than `value` is compared element by element. Python would take the truth of the elementwise result there too, and raise for two or more elements.
- Lookup: member names are matched as values, so a member named `1` is not found under `1.0` or `True`, as Python's hash-and-`==` lookup would find it. The same holds for IndexOfMember and ContainsMember.
- SetAttribute: in Python, `setattr` of `_dataflow`, or of `_ctrls` on a Cluster, replaces the dataflow or the member dict (autolv/datatypes.py:64-67). The model files the value as a plain attribute and keeps the dataflow and the members. No caller in the source assigns those names.
- pathlib normalisation is not modelled. A Path keeps the text it was given, so `Path("")` reads back as `""`, not `"."`.
- datetime values are opaque text with only the `isinstance` check. Floats are opaque except that they count as numbers, so there is no NaN behaviour.
- Python's `str.upper`/`str.lower` are modelled on ASCII letters only. Other Unicode case mappings are left out.
- IsWordChar: Python's `\w` in a str pattern takes every Unicode letter, digit and connector; the model takes only ASCII letters, digits and `_`.
- WordRun: stops at the first character that is not an ASCII word character, so a run through a non-ASCII letter such as `é` is cut short.
- ValidIdentifier: rejects names with non-ASCII word characters, such as "aé", which Python's `re.match` accepts.
- ValidIdentifierCharacterized: characterizes acceptance with ASCII word characters only, for the same reason.
- ReadValue: when a member read raises AttributeError, Python falls back to `Cluster.__getattr__("value")` (autolv/datatypes.py:205-209). That fallback returns the member object named "value" if there is one. A control object is not a value in this model, so the read reports the AttributeError.
- Equal: `getattr(self, name)` (autolv/datatypes.py:252) looks up instance and class attributes before members. In Python, a member named like an attribute, such as "name", "value", "index" or a read-only attribute, is compared through that attribute, and a non-string name raises TypeError. The model compares the members found in `_ctrls`.
- RingDisplay: an `items` other than a list, tuple or str, such as a dict or an ndarray, is reported as TypeError. Python would look `value` up in it.
- QuotSubstituted: states that a `""` outside every tag span is substituted or overlaps the match one to its left. In a run of three or more `"`, it does not say which of the two holds.
- RemovePartTextDeletesOnly: states only that the pass deletes characters. The body it removes is stated by Rewrites.RemovePartTextBody.
- AddQuotesInsertsOnlyQuotes: states only that the pass inserts `"` characters. Where it inserts them is stated by Rewrites.AddQuotesValue.
- DeEmbedElementDeletesOnly: states only that the pass deletes characters. What it rewrites is stated by Rewrites.DeEmbedOpen and Rewrites.DeEmbedClose.
- CloseElementInsertsOnly: states only that the pass inserts copies of `</e>`. Where it inserts them is stated by Rewrites.CloseElementTag.
- EscapeLtInverse: a round trip on text without `&`. That no `<<` is left is stated by Entities.EscapeLt.
- EscapeGtInverse: a round trip on text without `&`. How each run of `>` is rewritten is stated by Entities.EscapeGtRun.
- `__repr__`, `__dir__`, `__hash__` and `__iter__`/`__len__` are not modelled; `str()` is modelled only for Ring and IORefNum.
- `Cluster.__getattr__` member access (autolv/datatypes.py:205-212) is modelled only through `__getitem__` by name.
- FieldsEqual: Python zips the two `__dict__`s by position. The model pairs attributes by name, and takes two controls with different attribute names to be unequal. It takes the attributes set before `value` to be `name` and the read-only attributes, which `__init__` sets first, so a read-only attribute assigned after construction is tested too early.
- The object layer holds cluster members by value. Two names cannot share one member object, so aliasing between clusters is not modelled.
- An unhashable key is reported as TypeError with an abbreviated culprit. Walker.AsKey reports an empty list or dict, not the value itself.
- Walker.IterFind states only that what it yields are children with the tag. The converse direction is the separate lemma Walker.TaggedComplete.
- Walker.Walk and its loop functions state in their contracts only that the result is keyed by name. What each branch files is stated by the lemmas beside them.
- Walker.RecurseCtrls and its helper methods return the dictionaries as values, not as shared Python objects. That matters where the source mutates `controls[attrs["name"]]["ctrls"]` after storing it: the model rebuilds the entry instead.

## Findings

| source | as written | input that shows it | evidently intended | confidence | as-written member | corrected member |
|---|---|---|---|---|---|---|
| autolv/datatypes.py:34 | `re.match(r"^[a-zA-Z][\w]+$", item)` needs two characters, and `$` also matches before a final newline | "x" is rejected; "ab\n" is accepted | any name of an ASCII letter followed by word characters, with nothing after them, as the docstring says ("valid Python identifier") | not executed | Datatypes.ValidIdentifierAcceptsTrailingNewline | Datatypes.IsIdentifierFixesBoth |
| autolv/datatypes.py:250 | `zip` over the two clusters' names stops at the shorter one | an empty Cluster compared with a one-member Cluster gives True | clusters with different member counts are unequal | not executed | ControlProperties.EmptyClusterEqualsNonEmpty | ControlProperties.EqualControlsCorrected |

`ControlObjects.LVControl.Equals` and `Datatypes.Equal` model the
truncating `zip` as written, though not `getattr`'s lookup order or the
pairing of `__dict__` by position (see "## Left out"). `Datatypes.EqualControls` is the corrected comparison. Likewise,
`Datatypes.ValidIdentifier` is as written and `Datatypes.IsIdentifier` is the
corrected rule. Nothing else in the model depends on either.
